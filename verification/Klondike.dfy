/** The Klondike engine as a machine on values: deal, select, move, draw and auto-move. */
module Klondike {
  import opened Sequences

  const NPILES := 7
  const NFOUND := 4
  const MAXRUN := 19
  const WASTE := -2

  // ---- Cards -------------------------------------------------------------------------

  function Suit(card: int): int { if card < 0 then -1 else card / 13 }

  function Rank(card: int): int { if card < 0 then -1 else card % 13 + 1 }

  predicate IsRed(suit: int) { suit == 1 || suit == 3 }

  /** `card` may lie on `under` in a tableau run. */
  predicate Stacks(under: int, card: int) {
    IsRed(Suit(card)) != IsRed(Suit(under)) && Rank(card) == Rank(under) - 1
  }

  /** The sequence of cards a foundation stands for; the C code stores only its top card. */
  function FoundPile(f: nat, top: int): seq<int> {
    seq(if top < 0 then 0 else Rank(top), i => 13 * f + i)
  }

  // ---- The game ------------------------------------------------------------------------

  /** `up[p]` keeps all MAXRUN flags of a pile, also those above its live cards. */
  datatype Game = Game(
    piles: seq<seq<int>>, up: seq<seq<bool>>, stock: seq<int>, waste: seq<int>, found: seq<int>,
    moves: nat, won: bool, selPile: int, selIndex: int)

  predicate Framed(g: Game) {
    |g.piles| == |g.up| == NPILES && |g.found| == NFOUND
  }

  predicate Shape(g: Game) {
    && Framed(g)
    && (forall p :: 0 <= p < NPILES ==> |g.up[p]| == MAXRUN && |g.piles[p]| <= MAXRUN)
    && WASTE <= g.selPile < NPILES
    && (g.selPile >= 0 ==> 0 <= g.selIndex < |g.piles[g.selPile]|)
  }

  function Deal(deck: seq<int>): Game
    requires |deck| == 52
  {
    Game([deck[0..1], deck[1..3], deck[3..6], deck[6..10], deck[10..15], deck[15..21], deck[21..28]],
         seq(NPILES, p => seq(MAXRUN, k => k == p)),
         deck[28..], [], [-1, -1, -1, -1], 0, false, -1, -1)
  }

  predicate CanTableau(g: Game, p: nat, card: int)
    requires Shape(g) && p < NPILES
  {
    var n := |g.piles[p]|;
    if n == 0 then Rank(card) == 13 else g.up[p][n - 1] && Stacks(g.piles[p][n - 1], card)
  }

  predicate CanFound(g: Game, f: nat, card: int)
    requires Shape(g) && f < NFOUND
  {
    Suit(card) == f && (if g.found[f] < 0 then Rank(card) == 1 else Rank(card) == Rank(g.found[f]) + 1)
  }

  function Deselected(g: Game): Game { g.(selPile := -1, selIndex := -1) }

  /** All four kings are up. */
  predicate Complete(g: Game)
    requires |g.found| == NFOUND
  {
    forall f :: 0 <= f < NFOUND ==> Rank(g.found[f]) == 13
  }

  function WithWinCheck(g: Game): Game
    requires |g.found| == NFOUND
  {
    if Complete(g) then g.(won := true) else g
  }

  /** Drops the cards of pile p from index i on, and flips the card thereby exposed. */
  function Cut(g: Game, p: nat, i: nat): Game
    requires Shape(g) && p < NPILES && i <= |g.piles[p]|
  {
    g.(piles := g.piles[p := g.piles[p][..i]],
       up := if i > 0 then g.up[p := g.up[p][i - 1 := true]] else g.up)
  }

  predicate SelectionFits(g: Game, p: nat)
    requires Shape(g) && p < NPILES
  {
    g.selPile >= 0 && g.selPile != p && CanTableau(g, p, g.piles[g.selPile][g.selIndex])
  }

  function MoveToTableau(g: Game, p: nat): Game
    requires Shape(g) && p < NPILES
  {
    if !SelectionFits(g, p) then g
    else
      var h := Cut(g, g.selPile, g.selIndex);
      var run := g.piles[g.selPile][g.selIndex..];
      WithWinCheck(Deselected(h.(piles := h.piles[p := g.piles[p] + run], moves := g.moves + 1)))
  }

  /** The card a foundation move takes: the selected top card, or the waste's when nothing is selected. */
  predicate HasSource(g: Game)
    requires Shape(g)
  {
    if g.selPile >= 0 then g.selIndex == |g.piles[g.selPile]| - 1 else g.waste != []
  }

  function SourceCard(g: Game): int
    requires Shape(g) && HasSource(g)
  {
    if g.selPile >= 0 then g.piles[g.selPile][g.selIndex] else g.waste[|g.waste| - 1]
  }

  function MoveToFoundation(g: Game, f: nat): Game
    requires Shape(g) && f < NFOUND
  {
    if !HasSource(g) || !CanFound(g, f, SourceCard(g)) then g
    else
      var h := if g.selPile >= 0 then Cut(g, g.selPile, g.selIndex) else g.(waste := g.waste[..|g.waste| - 1]);
      WithWinCheck(Deselected(h.(found := g.found[f := SourceCard(g)], moves := g.moves + 1)))
  }

  function AutoFrom(g: Game, f: nat): Game
    requires Shape(g) && HasSource(g) && f <= NFOUND
    decreases NFOUND - f
  {
    if f == NFOUND then g
    else if CanFound(g, f, SourceCard(g)) then MoveToFoundation(g, f)
    else AutoFrom(g, f + 1)
  }

  function AutoFoundation(g: Game): Game
    requires Shape(g)
  {
    if HasSource(g) then AutoFrom(g, 0) else g
  }

  function DrawStock(g: Game): Game {
    Deselected(
      if g.stock == [] then g.(stock := Reversed(g.waste), waste := [], moves := g.moves + 1)
      else g.(stock := g.stock[..|g.stock| - 1], waste := g.waste + [g.stock[|g.stock| - 1]], moves := g.moves + 1))
  }

  /** The selection rule: only a live card whose flag is set. */
  function Select(g: Game, p: nat, i: nat): Game
    requires Shape(g)
  {
    if g.selPile < 0 && p < NPILES && i < |g.piles[p]| && g.up[p][i] then g.(selPile := p, selIndex := i) else g
  }

  datatype Action =
    | NewGame(draws: seq<nat>)
    | ClickCard(p: nat, i: nat)
    | ClickNothing
    | ToTableau(p: nat)
    | ToFoundation(f: nat)
    | Draw
    | Auto

  // ---- Shuffling -------------------------------------------------------------------------

  function Ordered(): seq<int> { seq(52, i => i) }

  function Swapped(s: seq<int>, i: nat, j: nat): (t: seq<int>)
    requires i < |s| && j < |s|
    ensures |t| == |s|
    ensures multiset(t) == multiset(s)
  {
    s[i := s[j]][j := s[i]]
  }

  function DrawAt(draws: seq<nat>, k: nat): nat { if k < |draws| then draws[k] else 0 }

  /** Fisher-Yates from position i down, with draws[0], draws[1], ... as the random numbers. */
  function ShuffleFrom(deck: seq<int>, i: nat, draws: seq<nat>): (r: seq<int>)
    requires i < |deck|
    ensures |r| == |deck|
    ensures multiset(r) == multiset(deck)
    decreases i
  {
    if i == 0 then deck
    else ShuffleFrom(Swapped(deck, i, DrawAt(draws, |deck| - 1 - i) % (i + 1)), i - 1, draws)
  }

  function NewDeal(draws: seq<nat>): Game { Deal(ShuffleFrom(Ordered(), 51, draws)) }

  // ---- The invariant -----------------------------------------------------------------------

  /** Index of the first set flag. */
  function Low(u: seq<bool>): (l: nat)
    ensures l <= |u|
    ensures l < |u| ==> u[l]
    ensures forall k :: 0 <= k < l ==> !u[k]
  {
    if u == [] || u[0] then 0 else 1 + Low(u[1..])
  }

  /** The flags of pile p are set exactly from some index up to p. */
  predicate FlagsOk(u: seq<bool>, p: nat) {
    && |u| == MAXRUN
    && Low(u) <= p
    && forall k :: 0 <= k < MAXRUN ==> (u[k] <==> Low(u) <= k <= p)
  }

  /** From its lowest flagged index upward a pile is one alternating descending run. */
  predicate PileOk(pile: seq<int>, u: seq<bool>, p: nat) {
    && FlagsOk(u, p)
    && (if pile == [] then Low(u) == 0 else Low(u) < |pile|)
    && forall k :: Low(u) <= k < |pile| - 1 ==> Stacks(pile[k], pile[k + 1])
  }

  /** Every place a card can be in: seven piles, stock, waste and four foundations. */
  function Places(g: Game): (ps: seq<seq<int>>)
    requires Framed(g)
    ensures |ps| == 13
  {
    g.piles + [g.stock, g.waste] + seq(NFOUND, f requires 0 <= f < NFOUND => FoundPile(f, g.found[f]))
  }

  function Bag(ps: seq<seq<int>>): multiset<int> {
    if ps == [] then multiset{} else multiset(ps[0]) + Bag(ps[1..])
  }

  predicate FoundOk(found: seq<int>) {
    |found| == NFOUND && forall f :: 0 <= f < NFOUND ==> found[f] == -1 || 13 * f <= found[f] < 13 * f + 13
  }

  /** The invariant of every reachable game. */
  predicate Inv(g: Game) {
    && Shape(g)
    && FoundOk(g.found)
    && (forall p :: 0 <= p < NPILES ==> PileOk(g.piles[p], g.up[p], p))
    && (g.selPile >= 0 ==> g.up[g.selPile][g.selIndex])
    && Bag(Places(g)) == multiset(Ordered())
    && (g.won <==> Complete(g))
    && |g.stock| + |g.waste| <= 24
  }

  // ---- Bags of cards -------------------------------------------------------------------------

  lemma {:induction false} BagUpdate(ps: seq<seq<int>>, i: nat, x: seq<int>)
    requires i < |ps|
    ensures Bag(ps[i := x]) + multiset(ps[i]) == Bag(ps) + multiset(x)
  {
    var tail, m := ps[1..], multiset(ps[0]);
    if i == 0 {
      assert ps[0 := x][1..] == tail;
      assert multiset(x) + Bag(tail) + m == m + Bag(tail) + multiset(x);
    } else {
      BagUpdate(tail, i - 1, x);
      assert ps[i := x][1..] == tail[i - 1 := x];
      assert m + Bag(tail[i - 1 := x]) + multiset(ps[i]) == m + (Bag(tail[i - 1 := x]) + multiset(tail[i - 1]));
    }
  }

  /** Moving cards between two places leaves the bag alone. */
  lemma BagMove(ps: seq<seq<int>>, i: nat, a: seq<int>, j: nat, b: seq<int>)
    requires i < |ps| && j < |ps| && i != j
    requires multiset(a) + multiset(b) == multiset(ps[i]) + multiset(ps[j])
    ensures Bag(ps[i := a][j := b]) == Bag(ps)
  {
    BagUpdate(ps, i, a);
    BagUpdate(ps[i := a], j, b);
    assert ps[i := a][j] == ps[j];
    hide Bag;
    Cancel(Bag(ps), Bag(ps[i := a]), Bag(ps[i := a][j := b]),
           multiset(ps[i]), multiset(a), multiset(ps[j]), multiset(b));
  }

  lemma Cancel(x: multiset<int>, y: multiset<int>, z: multiset<int>,
               p: multiset<int>, a: multiset<int>, q: multiset<int>, b: multiset<int>)
    requires y + p == x + a && z + q == y + b && a + b == p + q
    ensures z == x
  {
    forall c: int
      ensures z[c] == x[c]
    {
      assert (y + p)[c] == (x + a)[c] && (z + q)[c] == (y + b)[c] && (a + b)[c] == (p + q)[c];
    }
  }

  function Total(ps: seq<seq<int>>): nat { if ps == [] then 0 else |ps[0]| + Total(ps[1..]) }

  lemma {:induction false} BagSize(ps: seq<seq<int>>)
    ensures |Bag(ps)| == Total(ps)
  {
    if ps != [] {
      BagSize(ps[1..]);
    }
  }

  lemma {:induction false} BagHas(ps: seq<seq<int>>, i: nat, k: nat)
    requires i < |ps| && k < |ps[i]|
    ensures ps[i][k] in Bag(ps)
  {
    if i == 0 {
      assert ps[0][k] in multiset(ps[0]);
    } else {
      BagHas(ps[1..], i - 1, k);
    }
  }

  /** Only the 52 cards are in play. */
  lemma CardsInDeck(g: Game, i: nat, k: nat)
    requires Framed(g) && Bag(Places(g)) == multiset(Ordered()) && i < 13 && k < |Places(g)[i]|
    ensures 0 <= Places(g)[i][k] < 52
  {
    BagHas(Places(g), i, k);
    assert Places(g)[i][k] in Ordered();
  }

  // ---- Piles -------------------------------------------------------------------------------------

  lemma {:induction false} LowIs(u: seq<bool>, l: nat)
    requires l < |u| && u[l] && forall k :: 0 <= k < l ==> !u[k]
    ensures Low(u) == l
  {
    if l > 0 {
      LowIs(u[1..], l - 1);
    }
  }

  /** Ranks fall by one along a run, so a run has at most thirteen cards. */
  lemma {:induction false} RunRanks(pile: seq<int>, lo: nat, k: nat)
    requires lo <= k < |pile| && forall i :: lo <= i < |pile| - 1 ==> Stacks(pile[i], pile[i + 1])
    ensures Rank(pile[k]) == Rank(pile[lo]) - (k - lo)
    decreases k
  {
    if k > lo {
      RunRanks(pile, lo, k - 1);
      assert Stacks(pile[k - 1], pile[k]);
    }
  }

  lemma PileShort(pile: seq<int>, u: seq<bool>, p: nat)
    requires PileOk(pile, u, p) && forall k :: 0 <= k < |pile| ==> 0 <= pile[k] < 52
    ensures |pile| <= p + 13
  {
    if pile != [] {
      RunRanks(pile, Low(u), |pile| - 1);
    }
  }

  /** Cutting a pile at a flagged card, and flipping the card below it. */
  lemma CutKeepsPile(pile: seq<int>, u: seq<bool>, p: nat, i: nat)
    requires PileOk(pile, u, p) && i < |pile| && i < MAXRUN && u[i] && p < MAXRUN
    ensures PileOk(pile[..i], if i > 0 then u[i - 1 := true] else u, p)
  {
    if i > 0 {
      LowIs(u[i - 1 := true], if i - 1 < Low(u) then i - 1 else Low(u));
    }
  }

  /** A run put on a flagged top card, or a run on an empty pile, continues the pile's run. */
  lemma AddKeepsPile(pile: seq<int>, u: seq<bool>, p: nat, run: seq<int>)
    requires PileOk(pile, u, p) && run != []
    requires pile != [] ==> Stacks(pile[|pile| - 1], run[0])
    requires forall k :: 0 <= k < |run| - 1 ==> Stacks(run[k], run[k + 1])
    ensures PileOk(pile + run, u, p)
  {
    var all := pile + run;
    forall k | Low(u) <= k < |all| - 1
      ensures Stacks(all[k], all[k + 1])
    {
      if k < |pile| - 1 {
        assert Stacks(pile[k], pile[k + 1]);
      } else if k >= |pile| {
        assert Stacks(run[k - |pile|], run[k - |pile| + 1]);
      }
    }
  }

  // ---- Every action keeps the invariant --------------------------------------------------------

  /** Pile p never holds more than p + 13 cards. */
  lemma PilesShort(g: Game)
    requires Framed(g) && Bag(Places(g)) == multiset(Ordered())
    requires forall p :: 0 <= p < NPILES ==> PileOk(g.piles[p], g.up[p], p)
    ensures forall p :: 0 <= p < NPILES ==> |g.piles[p]| <= p + 13
  {
    forall p | 0 <= p < NPILES
      ensures |g.piles[p]| <= p + 13
    {
      forall k | 0 <= k < |g.piles[p]|
        ensures 0 <= g.piles[p][k] < 52
      {
        assert Places(g)[p] == g.piles[p];
        CardsInDeck(g, p, k);
      }
      PileShort(g.piles[p], g.up[p], p);
    }
  }

  lemma CutKeepsInvPiles(g: Game)
    requires Inv(g) && g.selPile >= 0
    ensures var h := Cut(g, g.selPile, g.selIndex);
            && Framed(h)
            && forall p :: 0 <= p < NPILES ==> PileOk(h.piles[p], h.up[p], p)
  {
    hide Bag, Places, Complete, Stacks, FoundOk, Low;
    var s := g.selPile;
    assert PileOk(g.piles[s], g.up[s], s);
    CutKeepsPile(g.piles[s], g.up[s], s, g.selIndex);
  }

  lemma TableauKeepsPiles(g: Game, p: nat)
    requires Inv(g) && p < NPILES && SelectionFits(g, p)
    ensures var h := MoveToTableau(g, p);
            && Framed(h)
            && forall q :: 0 <= q < NPILES ==> PileOk(h.piles[q], h.up[q], q)
  {
    CutKeepsInvPiles(g);
    var s := g.selPile;
    var h := MoveToTableau(g, p);
    var run := g.piles[s][g.selIndex..];
    assert PileOk(g.piles[p], g.up[p], p) && PileOk(g.piles[s], g.up[s], s);
    AddKeepsPile(g.piles[p], g.up[p], p, run);
    assert h.up[p] == g.up[p] && h.piles[p] == g.piles[p] + run;
    forall q | 0 <= q < NPILES
      ensures PileOk(h.piles[q], h.up[q], q)
    {
      hide PileOk;
      if q != p {
        var c := Cut(g, s, g.selIndex);
        assert h.piles[q] == c.piles[q] && h.up[q] == c.up[q];
      }
    }
  }

  lemma TableauKeepsBag(g: Game, p: nat)
    requires Inv(g) && p < NPILES && SelectionFits(g, p)
    ensures Bag(Places(MoveToTableau(g, p))) == Bag(Places(g))
  {
    hide PileOk, Bag, FoundPile, FoundOk, Complete;
    var s, i := g.selPile, g.selIndex;
    var h := MoveToTableau(g, p);
    var a, b := g.piles[s][..i], g.piles[p] + g.piles[s][i..];
    assert g.piles[s] == a + g.piles[s][i..];
    assert Places(h) == Places(g)[s := a][p := b];
    BagMove(Places(g), s, a, p, b);
  }

  lemma TableauKeepsInv(g: Game, p: nat)
    requires Inv(g) && p < NPILES
    ensures Inv(MoveToTableau(g, p))
  {
    if SelectionFits(g, p) {
      TableauKeepsPiles(g, p);
      TableauKeepsBag(g, p);
      hide Bag, PileOk, Places;
      PilesShort(MoveToTableau(g, p));
    }
  }

  /** The card that goes up is the next one of its suit. */
  lemma FoundPileGrows(f: nat, top: int, card: int)
    requires f < NFOUND && 0 <= card < 52 && Suit(card) == f
    requires top == -1 || 13 * f <= top < 13 * f + 13
    requires if top < 0 then Rank(card) == 1 else Rank(card) == Rank(top) + 1
    ensures FoundPile(f, card) == FoundPile(f, top) + [card]
    ensures 13 * f <= card < 13 * f + 13
  {
  }

  lemma SourceInDeck(g: Game)
    requires Inv(g) && HasSource(g)
    ensures 0 <= SourceCard(g) < 52
  {
    if g.selPile >= 0 {
      assert Places(g)[g.selPile] == g.piles[g.selPile];
      CardsInDeck(g, g.selPile, g.selIndex);
    } else {
      assert Places(g)[8] == g.waste;
      CardsInDeck(g, 8, |g.waste| - 1);
    }
  }

  /** A foundation move takes the top card of one place and puts it on another. */
  lemma FoundationMoves(g: Game, f: nat) returns (from: nat, a: seq<int>)
    requires Shape(g) && f < NFOUND && HasSource(g) && CanFound(g, f, SourceCard(g))
    ensures from < 9 && Framed(MoveToFoundation(g, f)) && Places(g)[from] == a + [SourceCard(g)]
    ensures Places(MoveToFoundation(g, f)) == Places(g)[from := a][9 + f := FoundPile(f, SourceCard(g))]
  {
    hide FoundPile;
    var src := if g.selPile >= 0 then g.piles[g.selPile] else g.waste;
    from, a := if g.selPile >= 0 then g.selPile else 8, src[..|src| - 1];
    PlacesChange(g, MoveToFoundation(g, f), from, a, f, SourceCard(g));
  }

  lemma FoundationKeepsBag(g: Game, f: nat)
    requires Inv(g) && f < NFOUND && HasSource(g) && CanFound(g, f, SourceCard(g))
    ensures Framed(MoveToFoundation(g, f)) && Bag(Places(MoveToFoundation(g, f))) == Bag(Places(g))
  {
    SourceInDeck(g);
    FoundPileGrows(f, g.found[f], SourceCard(g));
    var from, a := FoundationMoves(g, f);
    assert Shape(g) && Framed(g) && Places(g)[9 + f] == FoundPile(f, g.found[f]);
    hide Inv, Shape, MoveToFoundation, Places, Bag, FoundPile, HasSource, CanFound, SourceCard;
    BagMove(Places(g), from, a, 9 + f, FoundPile(f, SourceCard(g)));
  }

  lemma PlacesChange(g: Game, h: Game, from: nat, a: seq<int>, f: nat, card: int)
    requires Framed(g) && Framed(h) && (from < NPILES || from == 8) && f < NFOUND
    requires h.stock == g.stock && h.found == g.found[f := card]
    requires h.piles == (if from < NPILES then g.piles[from := a] else g.piles)
    requires h.waste == if from == 8 then a else g.waste
    ensures Places(h) == Places(g)[from := a][9 + f := FoundPile(f, card)]
  {
    hide FoundPile;
  }

  lemma FoundationKeepsInv(g: Game, f: nat)
    requires Inv(g) && f < NFOUND
    ensures Inv(MoveToFoundation(g, f))
  {
    hide Bag, PileOk, Places, FoundPile, Stacks;
    if HasSource(g) && CanFound(g, f, SourceCard(g)) {
      FoundationKeepsBag(g, f);
      SourceInDeck(g);
      FoundPileGrows(f, g.found[f], SourceCard(g));
      if g.selPile >= 0 { CutKeepsInvPiles(g); }
      PilesShort(MoveToFoundation(g, f));
    }
  }

  lemma {:induction false} AutoKeepsInv(g: Game, f: nat)
    requires Inv(g) && HasSource(g) && f <= NFOUND
    ensures Inv(AutoFrom(g, f))
    decreases NFOUND - f
  {
    if f < NFOUND {
      if CanFound(g, f, SourceCard(g)) {
        FoundationKeepsInv(g, f);
      } else {
        AutoKeepsInv(g, f + 1);
      }
    }
  }

  // ---- Stock and waste ----------------------------------------------------------------------------

  /** Stock followed by the reversed waste: the order in which the cards come round. */
  function Cycle(g: Game): seq<int> { g.stock + Reversed(g.waste) }

  /** Drawing and recycling never change the order of the cards. */
  lemma DrawKeepsCycle(g: Game)
    ensures Cycle(DrawStock(g)) == Cycle(g)
    ensures DrawStock(g).piles == g.piles && DrawStock(g).up == g.up && DrawStock(g).found == g.found
  {
    if g.stock != [] {
      ReversedAppend(g.waste, g.stock[|g.stock| - 1]);
    }
  }

  function Draws(g: Game, n: nat): Game
    decreases n
  {
    if n == 0 then g else Draws(DrawStock(g), n - 1)
  }

  /** n draws move n cards from the stock to the waste, while the stock lasts. */
  lemma {:induction false} DrawsMove(g: Game, n: nat)
    requires n <= |g.stock|
    ensures |Draws(g, n).stock| == |g.stock| - n && |Draws(g, n).waste| == |g.waste| + n
    ensures Cycle(Draws(g, n)) == Cycle(g)
    decreases n
  {
    if n > 0 {
      DrawKeepsCycle(g);
      DrawsMove(DrawStock(g), n - 1);
    }
  }

  lemma {:induction false} DrawsAdd(g: Game, a: nat, b: nat)
    ensures Draws(g, a + b) == Draws(Draws(g, a), b)
    decreases a
  {
    if a > 0 {
      DrawsAdd(DrawStock(g), a - 1, b);
    }
  }

  lemma SplitCycle(g: Game, h: Game)
    requires Cycle(g) == Cycle(h) && |g.stock| == |h.stock| && |g.waste| == |h.waste|
    ensures g.stock == h.stock && g.waste == h.waste
  {
    assert g.stock == Cycle(g)[..|g.stock|] && h.stock == Cycle(h)[..|h.stock|];
    assert Reversed(g.waste) == Cycle(g)[|g.stock|..] && Reversed(h.waste) == Cycle(h)[|h.stock|..];
    ReversedTwice(g.waste);
    ReversedTwice(h.waste);
  }

  /** Going once round the stock, recycling included, brings stock and waste back. */
  lemma DrawRoundTrip(g: Game)
    ensures var h := Draws(g, |g.stock| + 1 + |g.waste|); h.stock == g.stock && h.waste == g.waste
  {
    var n, m := |g.stock|, |g.waste|;
    DrawsAdd(g, n + 1, m);
    DrawsAdd(g, n, 1);
    DrawsMove(g, n);
    var a := Draws(g, n);
    var b := DrawStock(a);
    assert Draws(a, 1) == b;
    DrawKeepsCycle(a);
    assert |b.stock| == n + m;
    DrawsMove(b, m);
    SplitCycle(Draws(b, m), g);
  }

  lemma DrawKeepsInv(g: Game)
    requires Inv(g)
    ensures Inv(DrawStock(g))
  {
    DrawKeepsBag(g);
    hide PileOk, Bag, Places;
  }

  lemma DrawKeepsBag(g: Game)
    requires Framed(g)
    ensures Bag(Places(DrawStock(g))) == Bag(Places(g))
  {
    hide Bag, FoundPile, Reversed;
    var h := DrawStock(g);
    ReversedBag(g.waste);
    assert g.stock != [] ==> g.stock == h.stock + [g.stock[|g.stock| - 1]];
    assert Places(h) == Places(g)[7 := h.stock][8 := h.waste];
    assert Places(g)[7] == g.stock && Places(g)[8] == g.waste;
    hide Places;
    BagMove(Places(g), 7, h.stock, 8, h.waste);
  }

  // ---- Deals and runs -----------------------------------------------------------------------------

  lemma DealKeepsInv(deck: seq<int>)
    requires |deck| == 52 && multiset(deck) == multiset(Ordered())
    ensures Inv(Deal(deck))
  {
    var g := Deal(deck);
    forall p | 0 <= p < NPILES
      ensures PileOk(g.piles[p], g.up[p], p)
    {
      LowIs(g.up[p], p);
    }
    DealBag(deck);
    assert Rank(g.found[0]) == -1;
  }

  lemma DealBag(deck: seq<int>)
    requires |deck| == 52
    ensures Bag(Places(Deal(deck))) == multiset(deck)
  {
    var g := Deal(deck);
    var ps := Places(g);
    JoinBag(ps);
    assert Joined(ps) == deck by { DealJoins(deck); }
  }

  function Joined(ps: seq<seq<int>>): seq<int> { if ps == [] then [] else ps[0] + Joined(ps[1..]) }

  lemma {:induction false} JoinBag(ps: seq<seq<int>>)
    ensures multiset(Joined(ps)) == Bag(ps)
  {
    if ps != [] {
      JoinBag(ps[1..]);
    }
  }

  predicate IsSlice(deck: seq<int>, s: seq<int>, cuts: seq<nat>, i: nat) {
    i + 1 < |cuts| && cuts[i] <= cuts[i + 1] <= |deck| && s == deck[cuts[i]..cuts[i + 1]]
  }

  lemma {:induction false} JoinSlices(deck: seq<int>, ps: seq<seq<int>>, cuts: seq<nat>)
    requires |cuts| == |ps| + 1 && cuts[|ps|] == |deck|
    requires forall i :: 0 <= i < |ps| ==> IsSlice(deck, ps[i], cuts, i)
    ensures cuts[0] <= |deck| && Joined(ps) == deck[cuts[0]..]
  {
    if ps != [] {
      assert IsSlice(deck, ps[0], cuts, 0);
      forall i | 0 <= i < |ps[1..]|
        ensures IsSlice(deck, ps[1..][i], cuts[1..], i)
      {
        assert IsSlice(deck, ps[i + 1], cuts, i + 1);
      }
      JoinSlices(deck, ps[1..], cuts[1..]);
    }
  }

  lemma DealJoins(deck: seq<int>)
    requires |deck| == 52
    ensures Joined(Places(Deal(deck))) == deck
  {
    var ps := Places(Deal(deck));
    var cuts: seq<nat> := [0, 1, 3, 6, 10, 15, 21, 28, 52, 52, 52, 52, 52, 52];
    assert forall i :: 9 <= i < 13 ==> ps[i] == [];
    assert ps[7] == deck[28..52] && ps[8] == [];
    JoinSlices(deck, ps, cuts);
    assert deck[0..] == deck;
  }

  function Step(g: Game, a: Action): Game
    requires Shape(g)
  {
    match a
    case NewGame(draws) => NewDeal(draws)
    case ClickCard(p, i) => Select(g, p, i)
    case ClickNothing => g.(selPile := -1)
    case ToTableau(p) => if p < NPILES then MoveToTableau(g, p) else g
    case ToFoundation(f) => if f < NFOUND then MoveToFoundation(g, f) else g
    case Draw => DrawStock(g)
    case Auto => AutoFoundation(g)
  }

  lemma NewDealKeepsInv(draws: seq<nat>)
    ensures Inv(NewDeal(draws))
  {
    DealKeepsInv(ShuffleFrom(Ordered(), 51, draws));
  }

  lemma StepKeepsInv(g: Game, a: Action)
    requires Inv(g)
    ensures Inv(Step(g, a))
  {
    match a
    case NewGame(draws) => NewDealKeepsInv(draws);
    case ClickCard(p, i) => hide Bag, PileOk;
    case ClickNothing => hide Bag, PileOk;
    case ToTableau(p) => if p < NPILES { TableauKeepsInv(g, p); }
    case ToFoundation(f) => if f < NFOUND { FoundationKeepsInv(g, f); }
    case Draw => DrawKeepsInv(g);
    case Auto => if HasSource(g) { AutoKeepsInv(g, 0); }
  }

  /** `actions` lead from `g` to `h`. */
  ghost predicate IsRun(g: Game, actions: seq<Action>, h: Game)
    decreases |actions|
  {
    if actions == [] then g == h else Shape(g) && IsRun(Step(g, actions[0]), actions[1..], h)
  }

  lemma {:induction false} RunKeepsInv(g: Game, actions: seq<Action>, h: Game)
    requires Inv(g) && IsRun(g, actions, h)
    ensures Inv(h)
    decreases |actions|
  {
    if actions != [] {
      StepKeepsInv(g, actions[0]);
      RunKeepsInv(Step(g, actions[0]), actions[1..], h);
    }
  }

  /** Some deal and some run of actions lead to `g`. */
  ghost predicate Reachable(g: Game) {
    exists d: Game, actions: seq<Action> :: IsDeal(d) && IsRun(d, actions, g)
  }

  ghost predicate IsDeal(d: Game) { exists draws: seq<nat> :: d == NewDeal(draws) }

  /** Every reachable game satisfies the invariant. */
  lemma ReachableInv(g: Game)
    requires Reachable(g)
    ensures Inv(g)
  {
    var d: Game, actions: seq<Action> :| IsDeal(d) && IsRun(d, actions, g);
    var draws: seq<nat> :| d == NewDeal(draws);
    NewDealKeepsInv(draws);
    RunKeepsInv(d, actions, g);
  }

  /** SOL_MAXRUN is never exceeded: pile p holds at most p + 13 cards. */
  lemma ReachablePilesShort(g: Game)
    requires Reachable(g)
    ensures Framed(g)
    ensures |g.piles| == 7 && forall p :: 0 <= p < 7 ==> |g.piles[p]| <= p + 13 <= 19 == MAXRUN
  {
    ReachableInv(g);
    PilesShort(g);
  }

  /** Every card of the deck is in exactly one place, once. */
  lemma ReachableCards(g: Game, card: int)
    requires Reachable(g) && 0 <= card < 52
    ensures Framed(g) && Bag(Places(g))[card] == 1
  {
    ReachableInv(g);
    OrderedOnce(52, card);
  }

  lemma {:induction false} OrderedOnce(n: nat, card: nat)
    requires card < n
    ensures multiset(seq(n, i => i))[card] == 1
  {
    var s := seq(n, i => i);
    assert s == seq(n - 1, i => i) + [n - 1];
    if card < n - 1 {
      OrderedOnce(n - 1, card);
    } else {
      assert card !in seq(n - 1, i => i);
    }
  }

  lemma {:induction false} TotalConcat(a: seq<seq<int>>, b: seq<seq<int>>)
    ensures Total(a + b) == Total(a) + Total(b)
  {
    if a == [] {
      assert a + b == b;
    } else {
      TotalConcat(a[1..], b);
      assert (a + b)[1..] == a[1..] + b;
    }
  }

  lemma {:induction false} TotalZero(a: seq<seq<int>>)
    ensures Total(a) == 0 <==> forall i :: 0 <= i < |a| ==> a[i] == []
  {
    if a != [] {
      TotalZero(a[1..]);
      assert a == [a[0]] + a[1..];
    }
  }

  /** Stacks of at most thirteen are all full exactly when their total is the greatest possible. */
  lemma {:induction false} TotalFull(a: seq<seq<int>>)
    requires forall i :: 0 <= i < |a| ==> |a[i]| <= 13
    ensures Total(a) <= 13 * |a|
    ensures Total(a) == 13 * |a| <==> forall i :: 0 <= i < |a| ==> |a[i]| == 13
  {
    if a != [] {
      TotalFull(a[1..]);
      assert a == [a[0]] + a[1..];
    }
  }

  lemma CompleteIffFull(g: Game)
    requires Framed(g) && FoundOk(g.found) && Total(Places(g)) == 52
    ensures Complete(g) <==> Total(g.piles + [g.stock, g.waste]) == 0
  {
    var full := seq(NFOUND, f requires 0 <= f < NFOUND => FoundPile(f, g.found[f]));
    TotalConcat(g.piles + [g.stock, g.waste], full);
    TotalFull(full);
    assert forall f :: 0 <= f < NFOUND ==> (|full[f]| == 13 <==> Rank(g.found[f]) == 13);
  }

  /** The game is won exactly when tableau, stock and waste are empty. */
  lemma WonIffCleared(g: Game)
    requires Reachable(g)
    ensures Framed(g)
    ensures g.won <==> (forall p :: 0 <= p < NPILES ==> g.piles[p] == []) && g.stock == [] && g.waste == []
  {
    ReachableInv(g);
    InvTotal(g);
    hide Bag, PileOk, Total, Places;
    CompleteIffFull(g);
    LiveEmpty(g);
  }

  lemma InvTotal(g: Game)
    requires Inv(g)
    ensures Total(Places(g)) == 52
  {
    BagSize(Places(g));
    assert |multiset(Ordered())| == |Ordered()|;
  }

  lemma LiveEmpty(g: Game)
    requires Framed(g)
    ensures Total(g.piles + [g.stock, g.waste]) == 0
        <==> (forall p :: 0 <= p < NPILES ==> g.piles[p] == []) && g.stock == [] && g.waste == []
  {
    var live := g.piles + [g.stock, g.waste];
    TotalZero(live);
    hide Total;
    assert live[7] == g.stock && live[8] == g.waste;
    assert forall p :: 0 <= p < NPILES ==> live[p] == g.piles[p];
  }

  // ---- What the flags do -----------------------------------------------------------------------------

  /**
    * A moved card keeps its face up just when it lands at an index of at most p: the move copies
    * cards but not flags, and the flags of pile p reach no further than p.
    */
  lemma MovedFaceUpIff(g: Game, p: nat)
    requires Inv(g) && p < NPILES && SelectionFits(g, p)
    ensures var h := MoveToTableau(g, p);
            && |h.piles[p]| <= |h.up[p]|
            && forall j :: |g.piles[p]| <= j < |h.piles[p]| ==> (h.up[p][j] <==> j <= p)
  {
    TableauKeepsInv(g, p);
    var h := MoveToTableau(g, p);
    assert h.up[p] == g.up[p];
    assert PileOk(g.piles[p], g.up[p], p);
    assert |h.piles[p]| <= |h.up[p]|;
    hide Bag, Places, Inv, MoveToTableau;
  }

  lemma SmallMod(i: nat, n: nat)
    requires i < n
    ensures i % n == i
  {
  }

  lemma {:induction false} IdleShuffle(deck: seq<int>, i: nat, draws: seq<nat>)
    requires |deck| == 52 && i < 52 && draws == seq(51, k requires 0 <= k => if k < 51 then 51 - k else 0)
    ensures ShuffleFrom(deck, i, draws) == deck
  {
    if i > 0 {
      assert DrawAt(draws, 51 - i) == i;
      SmallMod(i, i + 1);
      assert Swapped(deck, i, i) == deck;
      IdleShuffle(deck, i - 1, draws);
    }
  }

  /** The deck dealt unshuffled: the ace of spades may go on the two of hearts. */
  lemma AceMoves(d: Game) returns (h: Game)
    requires d == Deal(Ordered())
    ensures Shape(d) && Shape(Step(d, ClickCard(0, 0))) && h == Step(Step(d, ClickCard(0, 0)), ToTableau(4))
    ensures Framed(h) && |h.piles[4]| == 6 && h.piles[4][5] == 0
    ensures |h.up[4]| == MAXRUN && !h.up[4][5]
  {
    assert d.piles[0] == [0] && d.up[0][0];
    var g := Step(d, ClickCard(0, 0));
    assert g == d.(selPile := 0, selIndex := 0);
    assert d.piles[4] == [10, 11, 12, 13, 14] && d.up[4][4];
    assert SelectionFits(g, 4);
    h := MoveToTableau(g, 4);
    assert h.piles[4] == d.piles[4] + [0];
    assert h.up[4] == d.up[4];
  }

  /** A reachable game in which the ace of spades was moved and now lies face down. */
  lemma MovedFaceDown() returns (h: Game)
    ensures Reachable(h) && Framed(h)
    ensures |h.piles[4]| == 6 && h.piles[4][5] == 0
    ensures |h.up[4]| == MAXRUN && !h.up[4][5]
  {
    var draws := seq(51, k requires 0 <= k => if k < 51 then 51 - k else 0);
    IdleShuffle(Ordered(), 51, draws);
    var d := NewDeal(draws);
    assert IsDeal(d);
    hide ShuffleFrom, Reachable, Step, Deal, Shape;
    h := AceMoves(d);
    TwoStepRun(d, ClickCard(0, 0), ToTableau(4));
  }

  lemma TwoStepRun(d: Game, a: Action, b: Action)
    requires IsDeal(d) && Shape(d) && Shape(Step(d, a))
    ensures Reachable(Step(Step(d, a), b))
  {
    hide Step, Shape, IsDeal;
    var h := Step(Step(d, a), b);
    assert IsRun(h, [], h);
    assert [b][1..] == [] && [a, b][1..] == [b];
    assert IsRun(Step(d, a), [b], h);
    assert IsRun(d, [a, b], h);
  }

  /** Short of a new deal no card ever enters the tableau: the waste feeds only the foundations. */
  lemma TableauNeverGrows(g: Game, a: Action)
    requires Inv(g) && !a.NewGame?
    ensures Bag(Step(g, a).piles) <= Bag(g.piles)
  {
    hide PileOk, Places, Complete, Bag, FoundOk, Stacks;
    match a
    case ToTableau(p) =>
      if p < NPILES && SelectionFits(g, p) {
        var s, i := g.selPile, g.selIndex;
        assert g.piles[s] == g.piles[s][..i] + g.piles[s][i..];
        BagMove(g.piles, s, g.piles[s][..i], p, g.piles[p] + g.piles[s][i..]);
      }
    case ToFoundation(f) => FoundationShrinks(g, f);
    case Auto => if HasSource(g) { AutoShrinks(g, 0); }
    case ClickCard(p, i) =>
    case ClickNothing =>
    case Draw =>
  }

  lemma FoundationShrinks(g: Game, f: nat)
    requires Shape(g)
    ensures f < NFOUND ==> Bag(MoveToFoundation(g, f).piles) <= Bag(g.piles)
  {
    if f < NFOUND && HasSource(g) && CanFound(g, f, SourceCard(g)) && g.selPile >= 0 {
      var p, i := g.selPile, g.selIndex;
      var rest := g.piles[p][..i];
      assert g.piles[p] == rest + [g.piles[p][i]];
      assert MoveToFoundation(g, f).piles == g.piles[p := rest];
      BagUpdate(g.piles, p, rest);
      hide Bag, MoveToFoundation, Shape;
      Remove(Bag(g.piles), Bag(g.piles[p := rest]), multiset(rest), multiset{g.piles[p][i]});
    }
  }

  lemma Remove(x: multiset<int>, y: multiset<int>, a: multiset<int>, c: multiset<int>)
    requires y + (a + c) == x + a
    ensures y <= x
  {
    forall k: int
      ensures y[k] <= x[k]
    {
      assert (y + (a + c))[k] == (x + a)[k];
    }
  }

  lemma {:induction false} AutoShrinks(g: Game, f: nat)
    requires Shape(g) && HasSource(g) && f <= NFOUND
    ensures Bag(AutoFrom(g, f).piles) <= Bag(g.piles)
    decreases NFOUND - f
  {
    if f < NFOUND {
      FoundationShrinks(g, f);
      AutoShrinks(g, f + 1);
    }
  }
}
