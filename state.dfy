/**
 * state.py: the search-tree node. A state owns a deep copy of the game, so it is
 * a value here; `successor` builds the next value step by step.
 */
module SearchState {
  import opened Lists
  import opened Cards
  import opened Scoring
  import opened FiveCrowns

  /** The first half of an action: where the new card comes from (nowhere at the root). */
  datatype Source = Root | FromDiscard | FromDeck

  /** `(first_action, second_action)`: the source, and the card to discard (None: the card just drawn). */
  datatype Action = Action(source: Source, card: Option<Card>)

  /** `State(game, is_root, root_card)`: the flags and the node's own copy of the game. */
  datatype State = State(isRoot: bool, rootCard: Option<Card>, game: GameData)

  /** `__init__` looks up the active player's hand, so the active seat must exist. */
  predicate Seated(s: State)
  {
    HasActiveSeat(s.game)
  }

  /** `curr_player_id`, which `actor()` returns: the seat whose hand the node holds. */
  function Actor(s: State): (id: int)
    ensures Seated(s) ==> 0 <= id < |s.game.players| && s.game.players[id].hand == Hand(s)
  {
    s.game.active
  }

  /** `curr_player_hand`. */
  function Hand(s: State): seq<Card>
    requires Seated(s)
  {
    s.game.players[s.game.active].hand
  }

  /** `discard_pile_card`: the top of the pile, or None (`False` in the source) for an empty pile. */
  function DiscardTop(s: State): Option<Card>
  {
    if s.game.pile == [] then None else Some(Last(s.game.pile))
  }

  // ---------------------------------------------------------------------------
  // is_terminal, payoff, __eq__
  // ---------------------------------------------------------------------------

  /** `is_terminal()`: the game is over, or (below the root) the deck is empty or the hand scores 0. */
  function IsTerminal(s: State): (r: bool)
    requires Seated(s)
    ensures s.game.gameOver ==> r
    ensures s.isRoot ==> (r <==> s.game.gameOver)
    ensures !r && !s.isRoot ==> |s.game.deck| > 0 && Applicable(s, Action(FromDeck, None), 0)
  {
    s.game.gameOver ||
    (!s.isRoot && (|s.game.deck| == 0 || LowestScore(Hand(s), s.game.epoch, false) == 0))
  }

  /** `payoff()`: 0 while nobody has gone out, then +1 for a hand scoring 0 and -1 otherwise. */
  function Payoff(s: State): (r: int)
    requires Seated(s)
    ensures r == 0 || r == 1 || r == -1
    ensures r == 0 <==> !s.game.goOut
  {
    if !s.game.goOut then 0
    else if LowestScore(Hand(s), s.game.epoch, false) == 0 then 1
    else -1
  }

  /**
   * `__eq__`: same actor, the same hand as a list, and the same discard top. It
   * looks at nothing else, yet equal inner nodes offer the same actions.
   */
  function Equal(s: State, o: State): (r: bool)
    requires Seated(s) && Seated(o)
    ensures r && !s.isRoot && !o.isRoot ==> Actions(s) == Actions(o)
  {
    Actor(s) == Actor(o) && Hand(s) == Hand(o) && DiscardTop(s) == DiscardTop(o)
  }

  // ---------------------------------------------------------------------------
  // get_actions
  // ---------------------------------------------------------------------------

  /** One action per hand card, in hand order. */
  function Offer(source: Source, hand: seq<Card>): seq<Action>
  {
    seq(|hand|, i requires 0 <= i < |hand| => Action(source, Some(hand[i])))
  }

  /** `[("root", c) for c in hand if c != root_card]`. */
  function RootOffer(hand: seq<Card>, rootCard: Option<Card>): seq<Action>
  {
    if hand == [] then []
    else
      var c := Last(hand);
      RootOffer(hand[..|hand| - 1], rootCard) + (if Some(c) == rootCard then [] else [Action(Root, Some(c))])
  }

  /**
   * What `get_actions()` lists. Below the root: a discard action per hand card when
   * the pile has a top, then the deck-draw-and-discard-it action, then a deck action
   * per hand card. The deck actions are always there: a Deck object is always truthy.
   */
  function Actions(s: State): seq<Action>
    requires Seated(s)
  {
    if s.isRoot then RootOffer(Hand(s), s.rootCard)
    else
      (if DiscardTop(s).Some? then Offer(FromDiscard, Hand(s)) else []) +
      [Action(FromDeck, None)] + Offer(FromDeck, Hand(s))
  }

  /** `get_actions()` as the source runs it: append loops over the hand. */
  method GetActions(s: State) returns (actions: seq<Action>)
    requires Seated(s)
    ensures actions == Actions(s)
  {
    var hand := s.game.players[s.game.active].hand;
    actions := [];
    if s.isRoot {
      var i := 0;
      while i < |hand|
        invariant i <= |hand|
        invariant actions == RootOffer(hand[..i], s.rootCard)
      {
        assert hand[..i + 1][..i] == hand[..i];
        if Some(hand[i]) != s.rootCard {
          actions := actions + [Action(Root, Some(hand[i]))];
        }
        i := i + 1;
      }
      assert hand[..i] == hand;
    } else {
      if s.game.pile != [] {
        actions := AppendOffer(actions, FromDiscard, hand);
      }
      actions := actions + [Action(FromDeck, None)];
      actions := AppendOffer(actions, FromDeck, hand);
    }
  }

  /** `for card in hand: actions.append((source, card))`. */
  method AppendOffer(before: seq<Action>, source: Source, hand: seq<Card>) returns (actions: seq<Action>)
    ensures actions == before + Offer(source, hand)
  {
    actions := before;
    var i := 0;
    while i < |hand|
      invariant i <= |hand|
      invariant actions == before + Offer(source, hand[..i])
    {
      actions := actions + [Action(source, Some(hand[i]))];
      i := i + 1;
    }
    assert hand[..i] == hand;
  }

  lemma {:induction false} RootOfferMembers(hand: seq<Card>, rootCard: Option<Card>, a: Action)
    ensures a in RootOffer(hand, rootCard) <==>
      a.source == Root && a.card.Some? && a.card.value in hand && a.card != rootCard
  {
    if hand != [] {
      var init := hand[..|hand| - 1];
      RootOfferMembers(init, rootCard, a);
      assert hand == init + [Last(hand)];
    }
  }

  /** How many cards of `hand` equal the root card. */
  function Copies(hand: seq<Card>, rootCard: Option<Card>): nat
  {
    if rootCard.None? then 0 else multiset(hand)[rootCard.value]
  }

  lemma {:induction false} RootOfferCount(hand: seq<Card>, rootCard: Option<Card>)
    ensures |RootOffer(hand, rootCard)| == |hand| - Copies(hand, rootCard)
  {
    if hand != [] {
      var init := hand[..|hand| - 1];
      RootOfferCount(init, rootCard);
      assert hand == init + [Last(hand)];
    }
  }

  /**
   * At the root the actions are exactly ("root", c) for the hand cards c other than
   * the root card, one per such card.
   */
  lemma RootActions(s: State)
    requires Seated(s) && s.isRoot
    ensures forall a :: a in Actions(s) <==>
      a.source == Root && a.card.Some? && a.card.value in Hand(s) && a.card != s.rootCard
    ensures |Actions(s)| == |Hand(s)| - Copies(Hand(s), s.rootCard)
  {
    forall a {
      RootOfferMembers(Hand(s), s.rootCard, a);
    }
    RootOfferCount(Hand(s), s.rootCard);
  }

  /**
   * Below the root the actions are ("discard", c) for hand cards c when the pile has
   * a top, ("deck", None), and ("deck", c) for hand cards c; one action per hand card
   * and source.
   */
  lemma InnerActions(s: State)
    requires Seated(s) && !s.isRoot
    ensures forall a :: a in Actions(s) <==>
      (a.source == FromDiscard && s.game.pile != [] && a.card.Some? && a.card.value in Hand(s)) ||
      (a.source == FromDeck && (a.card.None? || a.card.value in Hand(s)))
    ensures |Actions(s)| == (if s.game.pile != [] then 2 else 1) * |Hand(s)| + 1
    ensures Actions(s)[|Actions(s)| - |Hand(s)| - 1] == Action(FromDeck, None)
  {
    var hand := Hand(s);
    forall a
      ensures a in Actions(s) <==>
        (a.source == FromDiscard && s.game.pile != [] && a.card.Some? && a.card.value in hand) ||
        (a.source == FromDeck && (a.card.None? || a.card.value in hand))
    {
      OfferMembers(FromDiscard, hand, a);
      OfferMembers(FromDeck, hand, a);
    }
  }

  lemma OfferMembers(source: Source, hand: seq<Card>, a: Action)
    ensures a in Offer(source, hand) <==> a.source == source && a.card.Some? && a.card.value in hand
  {
    if a.source == source && a.card.Some? && a.card.value in hand {
      var i :| 0 <= i < |hand| && hand[i] == a.card.value;
      assert Offer(source, hand)[i] == a;
    }
  }

  // ---------------------------------------------------------------------------
  // successor
  // ---------------------------------------------------------------------------

  /** The draw half can run: a deck draw needs a card at the random pick, a discard take a pile top. */
  predicate CanTake(g: GameData, a: Action, pick: nat)
  {
    (a.source == FromDeck ==> pick < |g.deck|) && (a.source == FromDiscard ==> g.pile != [])
  }

  /** `added_card`: the card `draw()` picks, the popped pile top, or None at the root. */
  function Added(g: GameData, a: Action, pick: nat): Option<Card>
    requires CanTake(g, a, pick)
  {
    match a.source
    case FromDeck => Some(g.deck[pick])
    case FromDiscard => Some(Last(g.pile))
    case Root => None
  }

  /** The card that goes onto the pile: the one named, or the one just added. */
  function Discarded(g: GameData, a: Action, pick: nat): Option<Card>
    requires CanTake(g, a, pick)
  {
    if a.card.Some? then a.card else Added(g, a, pick)
  }

  /** The hand once the added card (if any) is appended. */
  function Held(hand: seq<Card>, added: Option<Card>): seq<Card>
  {
    if added.Some? then hand + [added.value] else hand
  }

  /**
   * What `successor` needs to run without raising: the draw can happen, and the card
   * to discard is in the hand after the draw (`list.remove` raises otherwise, and
   * `remove(None)` at the root always raises).
   */
  predicate Applicable(s: State, a: Action, pick: nat)
    requires Seated(s)
  {
    CanTake(s.game, a, pick) &&
    Discarded(s.game, a, pick).Some? &&
    Discarded(s.game, a, pick).value in Held(Hand(s), Added(s.game, a, pick))
  }

  /** The deck and the pile after the draw half: `draw()` removes its card, `pop()` the top. */
  function Taken(g: GameData, a: Action, pick: nat): GameData
    requires CanTake(g, a, pick)
  {
    match a.source
    case FromDeck => g.(deck := RemoveFirst(g.deck, g.deck[pick]))
    case FromDiscard => g.(pile := g.pile[..|g.pile| - 1])
    case Root => g
  }

  /** The acting hand after the whole action. */
  function NewHand(s: State, a: Action, pick: nat): seq<Card>
    requires Seated(s) && Applicable(s, a, pick)
  {
    RemoveFirst(Held(Hand(s), Added(s.game, a, pick)), Discarded(s.game, a, pick).value)
  }

  /**
   * The bookkeeping after the move when the hand scores 0: going out, the first
   * player out recorded only while nobody has been counted off yet, one fewer
   * player to reveal, and the game over when none is left.
   */
  function GoOutCheck(g: GameData, mover: int, scoresZero: bool): GameData
  {
    if !scoresZero then g
    else
      var remaining := g.remaining - 1;
      g.(goOut := true,
         goOutPlayer := if g.remaining == |g.players| then Some(mover) else g.goOutPlayer,
         remaining := remaining,
         gameOver := g.gameOver || remaining == 0)
  }

  /** What `successor(action)` returns, with the deck draw's random pick as an input. */
  function Succ(s: State, a: Action, pick: nat): State
    requires Seated(s) && Applicable(s, a, pick)
  {
    State(false, None, GoOutCheck(Moved(s, a, pick), s.game.active, LowestScore(NewHand(s, a, pick), s.game.epoch, false) == 0))
  }

  /** The game once the turn passes, the card is taken, the mover holds `NewHand` and the discard tops the pile. */
  function Moved(s: State, a: Action, pick: nat): GameData
    requires Seated(s) && Applicable(s, a, pick)
  {
    var g := s.game;
    var me := g.active;
    Place(Taken(g.(active := (me + 1) % |g.players|), a, pick), g.players, me, NewHand(s, a, pick), Discarded(g, a, pick).value)
  }

  /** Seat `me` of `ps` gets `hand`, and `d` goes on top of `t`'s pile. */
  function Place(t: GameData, ps: seq<Player>, me: nat, hand: seq<Card>, d: Card): GameData
    requires me < |ps|
  {
    t.(players := ps[me := ps[me].(hand := hand)], pile := t.pile + [d])
  }

  /** `successor(action)` as the source runs it, on a copy of the game. */
  method Successor(s: State, a: Action, pick: nat) returns (next: State)
    requires Seated(s) && Applicable(s, a, pick)
    ensures next == Succ(s, a, pick)
  {
    var g := s.game;
    var me := g.active;
    g := g.(active := (me + 1) % |g.players|);
    ghost var rotated := g;
    var hand := g.players[me].hand;
    var added;
    g, added := TakeCard(g, a, pick);
    if added.Some? {
      hand := hand + [added.value];
    }
    assert hand == Held(Hand(s), Added(s.game, a, pick));
    var discard := if a.card.None? then added.value else a.card.value;
    hand := RemoveFirst(hand, discard);
    assert hand == NewHand(s, a, pick);
    g := g.(players := g.players[me := g.players[me].(hand := hand)], pile := g.pile + [discard]);
    ghost var moved := g;
    var score := ScoreHand(hand, g.epoch, false);
    g := GoingOut(g, me, score);
    next := State(false, None, g);
    SuccUnfold(s, a, pick, rotated, moved);
  }

  /** `Succ` spelled out step by step, as the method reaches it. */
  lemma SuccUnfold(s: State, a: Action, pick: nat, rotated: GameData, moved: GameData)
    requires Seated(s) && Applicable(s, a, pick)
    requires rotated == s.game.(active := (s.game.active + 1) % |s.game.players|)
    requires var t := Taken(rotated, a, pick); var me := s.game.active;
      moved == t.(players := s.game.players[me := s.game.players[me].(hand := NewHand(s, a, pick))],
                  pile := t.pile + [Discarded(s.game, a, pick).value])
    ensures Succ(s, a, pick) ==
      State(false, None, GoOutCheck(moved, s.game.active, LowestScore(NewHand(s, a, pick), s.game.epoch, false) == 0))
  {
  }

  /** The draw half of `successor`: `draw()` from the deck, `pop()` from the pile, or nothing. */
  method TakeCard(g: GameData, a: Action, pick: nat) returns (t: GameData, added: Option<Card>)
    requires CanTake(g, a, pick)
    ensures t == Taken(g, a, pick) && added == Added(g, a, pick)
  {
    t := g;
    added := None;
    if a.source == FromDeck {
      var card := g.deck[pick];
      t := g.(deck := RemoveFirst(g.deck, card));
      added := Some(card);
    } else if a.source == FromDiscard {
      added := Some(g.pile[|g.pile| - 1]);
      t := g.(pile := g.pile[..|g.pile| - 1]);
    }
  }

  /** The tail of `successor`: the flag and counter updates for a hand scoring 0. */
  method GoingOut(before: GameData, mover: int, score: int) returns (g: GameData)
    ensures g == GoOutCheck(before, mover, score == 0)
  {
    g := before;
    if score == 0 {
      g := g.(goOut := true);
      if g.remaining == |g.players| {
        g := g.(goOutPlayer := Some(mover));
      }
      g := g.(remaining := g.remaining - 1);
      if g.remaining == 0 {
        g := g.(gameOver := true);
      }
    }
  }

  // ---------------------------------------------------------------------------
  // What a successor is
  // ---------------------------------------------------------------------------

  /**
   * A successor is a non-root node for the next seat. The acting hand keeps its size
   * after a draw and loses the discarded card at the root; the discarded card tops
   * the pile, a deck draw removes one copy of the picked card from the deck, and the
   * other seats are untouched.
   */
  lemma SuccessorMoves(s: State, a: Action, pick: nat)
    requires Seated(s) && Applicable(s, a, pick)
    ensures var t := Succ(s, a, pick); var g := s.game; var h := t.game;
      !t.isRoot && t.rootCard == None && Seated(t) &&
      Actor(t) == (Actor(s) + 1) % |g.players| &&
      |h.players| == |g.players| &&
      |h.players[Actor(s)].hand| == (if a.source == Root then |Hand(s)| - 1 else |Hand(s)|) &&
      (forall i :: 0 <= i < |g.players| && i != Actor(s) ==> h.players[i] == g.players[i]) &&
      h.pile != [] && Some(Last(h.pile)) == Discarded(g, a, pick) &&
      (a.source == FromDeck ==> h.deck == RemoveFirst(g.deck, g.deck[pick]) && |h.pile| == |g.pile| + 1) &&
      (a.source == FromDiscard ==> h.deck == g.deck && |h.pile| == |g.pile|) &&
      (a.source == Root ==> h.deck == g.deck && |h.pile| == |g.pile| + 1)
  {
    var g := s.game;
    var hand := NewHand(s, a, pick);
    var t := Taken(g.(active := (g.active + 1) % |g.players|), a, pick);
    assert |hand| == |Held(Hand(s), Added(g, a, pick))| - 1;
    var moved := t.(players := g.players[g.active := g.players[g.active].(hand := hand)],
                    pile := t.pile + [Discarded(g, a, pick).value]);
    SuccUnfold(s, a, pick, g.(active := (g.active + 1) % |g.players|), moved);
  }

  /**
   * `("deck", None)`: the drawn card goes straight onto the pile. The hand holds the
   * same cards, and is the very same list unless the drawn card already was in it
   * (`remove` then takes the earlier copy).
   */
  lemma DeckDrawDiscarded(s: State, pick: nat)
    requires Seated(s) && pick < |s.game.deck|
    ensures Applicable(s, Action(FromDeck, None), pick)
    ensures var c := s.game.deck[pick]; var t := Succ(s, Action(FromDeck, None), pick);
      Last(t.game.pile) == c && multiset(t.game.players[Actor(s)].hand) == multiset(Hand(s)) &&
      (c !in Hand(s) ==> t.game.players[Actor(s)].hand == Hand(s))
  {
    var a := Action(FromDeck, None);
    var c := s.game.deck[pick];
    MoverHand(s, a, pick);
    assert NewHand(s, a, pick) == RemoveFirst(Hand(s) + [c], c);
    RemoveAppended(Hand(s), c);
  }

  /** After a move the mover holds `NewHand`, and the discarded card tops the pile. */
  lemma MoverHand(s: State, a: Action, pick: nat)
    requires Seated(s) && Applicable(s, a, pick)
    ensures var h := Succ(s, a, pick).game;
      |h.players| == |s.game.players| && h.players[Actor(s)].hand == NewHand(s, a, pick) &&
      h.pile != [] && Last(h.pile) == Discarded(s.game, a, pick).value
  {
    var g := s.game;
    var t := Taken(g.(active := (g.active + 1) % |g.players|), a, pick);
    var moved := t.(players := g.players[g.active := g.players[g.active].(hand := NewHand(s, a, pick))],
                    pile := t.pile + [Discarded(g, a, pick).value]);
    SuccUnfold(s, a, pick, g.(active := (g.active + 1) % |g.players|), moved);
  }

  /** Appending a card and removing its first copy gives the same cards, and the same list if it was new. */
  lemma RemoveAppended(hand: seq<Card>, c: Card)
    ensures multiset(RemoveFirst(hand + [c], c)) == multiset(hand)
    ensures c !in hand ==> RemoveFirst(hand + [c], c) == hand
  {
    if c !in hand {
      assert (hand + [c])[|hand|] == c;
      assert IndexOf(hand + [c], c) == |hand|;
      assert (hand + [c])[..|hand|] == hand;
    }
  }

  /** A successor only moves cards around: deck, pile and hands hold the same cards as before. */
  lemma SuccessorConserves(s: State, a: Action, pick: nat)
    requires Seated(s) && Applicable(s, a, pick)
    ensures Pool(Succ(s, a, pick).game) == Pool(s.game)
  {
    GoOutKeepsCards(Moved(s, a, pick), s.game.active, LowestScore(NewHand(s, a, pick), s.game.epoch, false) == 0);
    MovedConserves(s, a, pick);
  }

  /** The card count of `Moved`: the taken card and the discard only change places. */
  lemma MovedConserves(s: State, a: Action, pick: nat)
    requires Seated(s) && Applicable(s, a, pick)
    ensures Pool(Moved(s, a, pick)) == Pool(s.game)
  {
    var g := s.game;
    var t := Taken(g.(active := (g.active + 1) % |g.players|), a, pick);
    MovedIsPlace(s, a, pick);
    TakeConserves(g, a, pick);
    TakenIgnoresTurn(g, a, pick, (g.active + 1) % |g.players|);
    NewHandCards(s, a, pick);
    PlaceConserves(g, t, Taken(g, a, pick), g.active, NewHand(s, a, pick), Discarded(g, a, pick).value, Held([], Added(g, a, pick)));
  }

  /** `Moved` seats the new hand and pushes the discard onto what `Taken` left. */
  lemma MovedIsPlace(s: State, a: Action, pick: nat)
    requires Seated(s) && Applicable(s, a, pick)
    ensures var g := s.game;
      Moved(s, a, pick) == Place(Taken(g.(active := (g.active + 1) % |g.players|), a, pick), g.players, g.active,
                                 NewHand(s, a, pick), Discarded(g, a, pick).value)
  {
  }

  /** Taking a card does not look at whose turn it is. */
  lemma TakenIgnoresTurn(g: GameData, a: Action, pick: nat, active: int)
    requires CanTake(g, a, pick)
    ensures Taken(g.(active := active), a, pick).deck == Taken(g, a, pick).deck
    ensures Taken(g.(active := active), a, pick).pile == Taken(g, a, pick).pile
  {
  }

  /** The mover's new hand and the discard hold the old hand and the taken card. */
  lemma NewHandCards(s: State, a: Action, pick: nat)
    requires Seated(s) && Applicable(s, a, pick)
    ensures multiset(NewHand(s, a, pick)) + multiset{Discarded(s.game, a, pick).value} ==
      multiset(s.game.players[s.game.active].hand) + multiset(Held([], Added(s.game, a, pick)))
  {
    var added := Added(s.game, a, pick);
    assert multiset(Held(Hand(s), added)) == multiset(Hand(s)) + multiset(Held([], added));
  }

  /** Handing seat `me` a new hand and pushing `d` keeps the cards, when the two moves balance. */
  lemma PlaceConserves(g: GameData, t: GameData, u: GameData, me: nat, hand: seq<Card>, d: Card, added: seq<Card>)
    requires me < |g.players| && t.deck == u.deck && t.pile == u.pile
    requires multiset(u.deck) + multiset(u.pile) + multiset(added) == multiset(g.deck) + multiset(g.pile)
    requires multiset(hand) + multiset{d} == multiset(g.players[me].hand) + multiset(added)
    ensures Pool(Place(t, g.players, me, hand, d)) == Pool(g)
  {
    var ps := g.players[me := g.players[me].(hand := hand)];
    HandsReplace(g.players, me, g.players[me].(hand := hand));
    assert multiset(t.pile + [d]) == multiset(t.pile) + multiset{d};
    SuccessorBalance(multiset(t.deck), multiset(t.pile), multiset(g.deck) + multiset(g.pile),
      multiset(g.players[me].hand), multiset(hand), Hands(g.players), Hands(ps), added, d);
  }

  lemma GoOutKeepsCards(g: GameData, mover: int, scoresZero: bool)
    ensures Pool(GoOutCheck(g, mover, scoresZero)) == Pool(g)
  {
    var h := GoOutCheck(g, mover, scoresZero);
    assert h.deck == g.deck && h.pile == g.pile && h.players == g.players;
  }

  /** The card taken, with what is left of the deck and the pile, is what they held before. */
  lemma TakeConserves(g: GameData, a: Action, pick: nat)
    requires CanTake(g, a, pick)
    ensures var t := Taken(g, a, pick);
      multiset(t.deck) + multiset(t.pile) + multiset(Held([], Added(g, a, pick))) == multiset(g.deck) + multiset(g.pile)
  {
    if a.source == FromDiscard {
      assert g.pile == g.pile[..|g.pile| - 1] + [Last(g.pile)];
    }
  }

  /** The card count behind `SuccessorConserves`. */
  lemma SuccessorBalance(deck: multiset<Card>, pile: multiset<Card>, before: multiset<Card>,
                         hand: multiset<Card>, hand': multiset<Card>, hands: multiset<Card>, hands': multiset<Card>,
                         added: seq<Card>, discard: Card)
    requires deck + pile + multiset(added) == before
    requires hand' + multiset{discard} == hand + multiset(added)
    requires hands' + hand == hands + hand'
    ensures deck + (pile + multiset{discard}) + hands' == before + hands
  {
    forall z: Card
      ensures (deck + (pile + multiset{discard}) + hands')[z] == (before + hands)[z]
    {
      assert (deck + pile + multiset(added))[z] == before[z];
      assert (hand' + multiset{discard})[z] == (hand + multiset(added))[z];
      assert (hands' + hand)[z] == (hands + hand')[z];
    }
  }

  /**
   * When the acting hand scores 0 the successor is going out with one fewer player
   * to reveal, is over when none is left, and names the mover as the first out only
   * if nobody had been counted off before; otherwise no flag or counter changes.
   */
  lemma SuccessorGoingOut(s: State, a: Action, pick: nat)
    requires Seated(s) && Applicable(s, a, pick)
    ensures var g := s.game; var h := Succ(s, a, pick).game;
      if LowestScore(NewHand(s, a, pick), g.epoch, false) == 0 then
        h.goOut && h.remaining == g.remaining - 1 &&
        (h.gameOver <==> g.gameOver || h.remaining == 0) &&
        h.goOutPlayer == (if g.remaining == |g.players| then Some(Actor(s)) else g.goOutPlayer)
      else
        h.goOut == g.goOut && h.remaining == g.remaining && h.gameOver == g.gameOver &&
        h.goOutPlayer == g.goOutPlayer
  {
  }

  /** When the last player still to reveal goes out, the successor is terminal. */
  lemma LastRevealEndsSearch(s: State, a: Action, pick: nat)
    requires Seated(s) && Applicable(s, a, pick)
    requires s.game.remaining == 1 && LowestScore(NewHand(s, a, pick), s.game.epoch, false) == 0
    ensures Seated(Succ(s, a, pick)) && IsTerminal(Succ(s, a, pick))
  {
  }

  /** After the mover goes out, the next node's payoff is decided: +1 or -1, never 0. */
  lemma PayoffAfterGoingOut(s: State, a: Action, pick: nat)
    requires Seated(s) && Applicable(s, a, pick)
    requires LowestScore(NewHand(s, a, pick), s.game.epoch, false) == 0
    ensures Seated(Succ(s, a, pick)) && Payoff(Succ(s, a, pick)) != 0
  {
  }

  /**
   * Every action `get_actions` offers at a node that is not terminal can be applied,
   * for any pick of the deck draw.
   */
  lemma OfferedActionsApply(s: State, a: Action, pick: nat)
    requires Seated(s) && !IsTerminal(s) && a in Actions(s)
    requires !s.isRoot ==> pick < |s.game.deck|
    ensures Applicable(s, a, pick)
  {
    if s.isRoot {
      RootActions(s);
    } else {
      InnerActions(s);
    }
  }
}
