/** What the Klondike engine does, card by card, in terms of the card numbers alone. */
module KlondikeRules {
  import opened Sequences
  import opened Klondike

  /** Hearts and diamonds: the second and the fourth thirteen cards. */
  predicate Red(card: int) { 13 <= card < 26 || 39 <= card < 52 }

  /** A run that starts with `card` may go onto pile p. */
  predicate Takes(g: Game, p: nat, card: int)
    requires Shape(g) && p < 7
  {
    var n := |g.piles[p]|;
    if n == 0 then card % 13 == 12
    else g.up[p][n - 1] && Red(card) != Red(g.piles[p][n - 1]) && g.piles[p][n - 1] % 13 == card % 13 + 1
  }

  lemma CardOf(g: Game, p: nat, k: nat)
    requires Inv(g) && p < 7 && k < |g.piles[p]|
    ensures 0 <= g.piles[p][k] < 52
  {
    hide Bag, PileOk, Complete;
    assert Places(g)[p] == g.piles[p];
    CardsInDeck(g, p, k);
  }

  lemma CanTableauIff(g: Game, p: nat, card: int)
    requires Inv(g) && p < 7 && 0 <= card < 52
    ensures CanTableau(g, p, card) <==> Takes(g, p, card)
  {
    hide Bag, PileOk, Places, Complete, FoundOk;
    if g.piles[p] != [] {
      CardOf(g, p, |g.piles[p]| - 1);
    }
  }

  /** The selected run goes onto another pile if and only if the rules of the game allow it, and nothing else moves. */
  lemma TableauMoveIff(g: Game, p: nat)
    requires Inv(g) && p < 7
    ensures var h, s, i := MoveToTableau(g, p), g.selPile, g.selIndex;
            if s >= 0 && s != p && Takes(g, p, g.piles[s][i]) then
              && h.piles == g.piles[s := g.piles[s][..i]][p := g.piles[p] + g.piles[s][i..]]
              && h.up == (if i > 0 then g.up[s := g.up[s][i - 1 := true]] else g.up)
              && h.stock == g.stock && h.waste == g.waste && h.found == g.found
              && h.moves == g.moves + 1 && h.selPile < 0
            else h == g
  {
    hide Bag, PileOk, Places, Complete, FoundOk, CanTableau;
    if g.selPile >= 0 {
      CardOf(g, g.selPile, g.selIndex);
      CanTableauIff(g, p, g.piles[g.selPile][g.selIndex]);
    }
  }

  /** The card that may go to a foundation, or -1: the selected one if it is on top, or the last of the waste. */
  function Loose(g: Game): int
    requires Shape(g)
  {
    if g.selPile >= 0 then
      (if g.selIndex == |g.piles[g.selPile]| - 1 then g.piles[g.selPile][g.selIndex] else -1)
    else if g.waste != [] then g.waste[|g.waste| - 1] else -1
  }

  lemma LooseCard(g: Game)
    requires Inv(g)
    ensures HasSource(g) ==> Loose(g) == SourceCard(g) && 0 <= Loose(g) < 52
    ensures !HasSource(g) ==> Loose(g) == -1
  {
    hide Bag, PileOk, Places, Complete, FoundOk;
    if HasSource(g) {
      SourceInDeck(g);
    }
  }

  lemma CanFoundIff(g: Game, f: nat, card: int)
    requires Inv(g) && f < 4 && 0 <= card < 52
    ensures CanFound(g, f, card)
       <==> card / 13 == f && card == if g.found[f] < 0 then 13 * f else g.found[f] + 1
  {
    hide Bag, PileOk, Places, Complete;
  }

  /** The loose card goes to foundation f if and only if it is the next of that suit, and only that card moves. */
  lemma FoundationMoveIff(g: Game, f: nat)
    requires Inv(g) && f < 4
    ensures var h, c, s := MoveToFoundation(g, f), Loose(g), g.selPile;
            if c >= 0 && c / 13 == f && c == (if g.found[f] < 0 then 13 * f else g.found[f] + 1) then
              && h.found == g.found[f := c] && h.stock == g.stock && h.moves == g.moves + 1 && h.selPile < 0
              && (if s >= 0
                  then h.waste == g.waste && h.piles == g.piles[s := h.piles[s]] && h.piles[s] + [c] == g.piles[s]
                  else h.piles == g.piles && h.up == g.up && h.waste + [c] == g.waste)
              && (s >= 0 ==> h.up == if |h.piles[s]| > 0 then g.up[s := g.up[s][|h.piles[s]| - 1 := true]] else g.up)
            else h == g
  {
    hide Bag, PileOk, Places, Complete, FoundOk, CanFound;
    LooseCard(g);
    if HasSource(g) {
      CanFoundIff(g, f, Loose(g));
    }
  }

  /** The automatic move is the foundation move to the card's own suit. */
  lemma AutoMoveIs(g: Game)
    requires Inv(g)
    ensures AutoFoundation(g) == if 0 <= Loose(g) < 52 then MoveToFoundation(g, Loose(g) / 13) else g
  {
    hide Bag, PileOk, Places, Complete, FoundOk, CanFound, MoveToFoundation;
    LooseCard(g);
    if HasSource(g) {
      var c := Loose(g);
      CanFoundIff(g, 0, c);
      CanFoundIff(g, 1, c);
      CanFoundIff(g, 2, c);
      CanFoundIff(g, 3, c);
      AutoWalk(g, c / 13);
      if !CanFound(g, c / 13, c) {
        NoMove(g, c / 13);
      }
    }
  }

  lemma NoMove(g: Game, f: nat)
    requires Shape(g) && f < 4 && !(HasSource(g) && CanFound(g, f, SourceCard(g)))
    ensures MoveToFoundation(g, f) == g
  {
  }

  lemma AutoWalk(g: Game, f: nat)
    requires Shape(g) && HasSource(g) && f < 4 && forall e :: 0 <= e < 4 && e != f ==> !CanFound(g, e, SourceCard(g))
    ensures AutoFrom(g, 0) == if CanFound(g, f, SourceCard(g)) then MoveToFoundation(g, f) else g
  {
    hide CanFound, MoveToFoundation, Shape, HasSource, SourceCard;
    assert AutoFrom(g, 4) == g;
    assert AutoFrom(g, 3) == if CanFound(g, 3, SourceCard(g)) then MoveToFoundation(g, 3) else g;
    assert AutoFrom(g, 2) == if CanFound(g, 2, SourceCard(g)) then MoveToFoundation(g, 2) else AutoFrom(g, 3);
    assert AutoFrom(g, 1) == if CanFound(g, 1, SourceCard(g)) then MoveToFoundation(g, 1) else AutoFrom(g, 2);
  }

  /** A card is selected if and only if none is, it lies in a pile and its flag is set; nothing else changes. */
  lemma SelectIff(g: Game, p: nat, i: nat)
    requires Inv(g)
    ensures var h := Select(g, p, i);
            if g.selPile < 0 && p < 7 && i < |g.piles[p]| && g.up[p][i]
            then h == g.(selPile := p, selIndex := i) else h == g
  {
  }

  /** A draw turns one card over; with no stock left the waste becomes the stock again. */
  lemma DrawIs(g: Game)
    ensures var h := DrawStock(g);
            && h.piles == g.piles && h.up == g.up && h.found == g.found && h.moves == g.moves + 1 && h.selPile < 0
            && (if g.stock != [] then exists x :: g.stock == h.stock + [x] && h.waste == g.waste + [x]
                else h.waste == [] && Reversed(h.stock) == g.waste)
  {
    if g.stock != [] {
      var x := g.stock[|g.stock| - 1];
      assert g.stock == DrawStock(g).stock + [x];
    } else {
      ReversedTwice(g.waste);
    }
  }

  /** Pile p gets the next p + 1 cards with only the last face up, and the stock the other 24. */
  lemma DealIs(deck: seq<int>, p: nat, k: nat)
    requires |deck| == 52 && p < 7 && k <= p
    ensures var g := Deal(deck);
            && |g.piles| == |g.up| == 7 && |g.piles[p]| == p + 1 && g.piles[p][k] == deck[p * (p + 1) / 2 + k]
            && |g.up[p]| == 19 && (forall j :: 0 <= j < 19 ==> (g.up[p][j] <==> j == p))
            && g.stock == deck[28..] && g.waste == [] && g.found == [-1, -1, -1, -1]
            && g.moves == 0 && !g.won && g.selPile < 0
  {
  }

  // ---- Every arrangement can come up ------------------------------------------------------------------

  lemma {:induction false} ShuffleOnto(deck: seq<int>, i: nat, target: seq<int>, prefix: seq<nat>)
      returns (draws: seq<nat>)
    requires i < |deck| == |target| && |prefix| == |deck| - 1 - i
    requires deck[i + 1..] == target[i + 1..] && multiset(deck[..i + 1]) == multiset(target[..i + 1])
    ensures prefix <= draws && ShuffleFrom(deck, i, draws) == target
    decreases i
  {
    if i == 0 {
      draws := prefix;
      assert deck[..1] == [deck[0]] && target[..1] == [target[0]];
      assert deck[0] in multiset(target[..1]);
      assert deck == deck[..1] + deck[1..] && target == target[..1] + target[1..];
    } else {
      assert target[i] == target[..i + 1][i] && target[i] in multiset(deck[..i + 1]);
      var j :| 0 <= j < i + 1 && deck[..i + 1][j] == target[i];
      var next := Swapped(deck, i, j);
      SwapPrefix(deck, i, j, target);
      draws := ShuffleOnto(next, i - 1, target, prefix + [j]);
      assert draws[|prefix|] == (prefix + [j])[|prefix|] == j;
      SmallMod(j, i + 1);
    }
  }

  lemma SwapPrefix(deck: seq<int>, i: nat, j: nat, target: seq<int>)
    requires j <= i < |deck| == |target| && 0 < i && deck[j] == target[i]
    requires deck[i + 1..] == target[i + 1..] && multiset(deck[..i + 1]) == multiset(target[..i + 1])
    ensures var next := Swapped(deck, i, j);
            next[i..] == target[i..] && multiset(next[..i]) == multiset(target[..i])
  {
    var next := Swapped(deck, i, j);
    assert next[..i + 1] == Swapped(deck[..i + 1], i, j);
    assert next[..i + 1] == next[..i] + [next[i]] && target[..i + 1] == target[..i] + [target[i]];
    assert next[i] == target[i] && next[i + 1..] == deck[i + 1..];
    assert next[i..] == [next[i]] + next[i + 1..] && target[i..] == [target[i]] + target[i + 1..];
    Drop(multiset(next[..i]), multiset(target[..i]), target[i]);
  }

  lemma Drop(a: multiset<int>, b: multiset<int>, x: int)
    requires a + multiset{x} == b + multiset{x}
    ensures a == b
  {
    assert a == (a + multiset{x}) - multiset{x} && b == (b + multiset{x}) - multiset{x};
  }

  /** The shuffle can produce every arrangement of the deck, so every deal can come up. */
  lemma ShuffleReachesAll(target: seq<int>)
    requires multiset(target) == multiset(Ordered())
    ensures exists draws :: ShuffleFrom(Ordered(), 51, draws) == target
  {
    var deck := Ordered();
    assert |target| == |multiset(target)| == |multiset(deck)| == 52;
    assert deck[..52] == deck && target[..52] == target && deck[52..] == target[52..];
    var draws := ShuffleOnto(deck, 51, target, []);
  }
}
