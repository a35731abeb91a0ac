/**
 * five_crowns.py: a game session. The `Game` class holds the live state and
 * changes it in place; `GameData` is a value copy of that state (what
 * `copy.deepcopy` of a game gives), and the turn rule is stated on it as `Turn`.
 */
module FiveCrowns {
  import opened Lists
  import opened Cards
  import opened Scoring

  /** The session defaults: ranks 3..13, five suits, three jokers, two copies. */
  const StandardRanks: seq<int> := [3, 4, 5, 6, 7, 8, 9, 10, 11, 12, 13]
  const StandardSuits: seq<Suit> := ["Clubs", "Diamonds", "Hearts", "Spades", "Stars"]
  const StandardJokers: nat := 3

  /** What a player's `draw_phase` answers. */
  datatype DrawChoice = GetDiscard | DrawCard

  /** A seat at the table: its id and the cards in its hand. */
  datatype Player = Player(id: int, hand: seq<Card>)

  /**
   * Every attribute of a `Game`. `goOutPlayer` is the attribute that only a
   * search-state successor sets on its copy; a live game never has it (None).
   */
  datatype GameData = GameData(
    ranks: seq<int>, suits: seq<Suit>, jokers: nat,
    deck: seq<Card>, fullDeck: seq<Card>,
    epoch: int, players: seq<Player>, active: int, pile: seq<Card>,
    goOut: bool, remaining: int, gameOver: bool, goOutPlayer: Option<int>)

  /** The cards in all hands together. */
  function Hands(ps: seq<Player>): multiset<Card>
  {
    if ps == [] then multiset{} else Hands(ps[..|ps| - 1]) + multiset(Last(ps).hand)
  }

  /** Every card in play: the deck, the discard pile and the hands. */
  function Pool(g: GameData): multiset<Card>
  {
    multiset(g.deck) + multiset(g.pile) + Hands(g.players)
  }

  lemma HandsAppend(ps: seq<Player>, p: Player)
    ensures Hands(ps + [p]) == Hands(ps) + multiset(p.hand)
  {
    assert (ps + [p])[..|ps|] == ps;
  }

  /** Giving one player a new hand swaps that hand's cards in the total and nothing else. */
  lemma {:induction false} HandsReplace(ps: seq<Player>, a: nat, p: Player)
    requires a < |ps|
    ensures Hands(ps[a := p]) + multiset(ps[a].hand) == Hands(ps) + multiset(p.hand)
  {
    var n := |ps| - 1;
    var init := ps[..n];
    var qs := ps[a := p];
    assert ps == init + [ps[n]];
    if a < n {
      var changed := init[a := p];
      assert qs == changed + [ps[n]];
      assert init[a] == ps[a];
      HandsReplace(init, a, p);
      HandsAppend(init, ps[n]);
      HandsAppend(changed, ps[n]);
      AddBoth(Hands(changed), multiset(ps[a].hand), Hands(init), multiset(p.hand), multiset(ps[n].hand));
    } else {
      assert qs == init + [p];
      HandsAppend(init, ps[n]);
      HandsAppend(init, p);
    }
  }

  /** Adding the same cards to both sides of a balance keeps it. */
  lemma AddBoth(x: multiset<Card>, u: multiset<Card>, y: multiset<Card>, v: multiset<Card>, w: multiset<Card>)
    requires x + u == y + v
    ensures x + w + u == y + w + v
  {
    forall z: Card
      ensures (x + w + u)[z] == (y + w + v)[z]
    {
      assert (x + u)[z] == (y + v)[z];
    }
  }

  // ---------------------------------------------------------------------------
  // A new game and its initial deal
  // ---------------------------------------------------------------------------

  /** `Game(players, ranks, suits, jokers, epoch)` right after construction. */
  function NewGame(players: seq<Player>, ranks: seq<int>, suits: seq<Suit>, jokers: nat, epoch: int): GameData
  {
    GameData(ranks, suits, jokers, FreshDeck(ranks, suits, jokers, 2),
      FreshDeck(StandardRanks, StandardSuits, StandardJokers, 2),
      epoch, players, 0, [], false, |players|, false, None)
  }

  /** A new game starts with nobody gone out, its own two-copy deck, and the 116-card reference deck. */
  lemma NewGameStart(players: seq<Player>, ranks: seq<int>, suits: seq<Suit>, jokers: nat, epoch: int)
    ensures var g := NewGame(players, ranks, suits, jokers, epoch);
      |g.deck| == 2 * (|ranks| * |suits| + jokers) && |g.fullDeck| == 116 &&
      g.active == 0 && g.pile == [] && !g.goOut && !g.gameOver && g.remaining == |players|
  {
    FreshDeckSize(ranks, suits, jokers, 2);
    FreshDeckSize(StandardRanks, StandardSuits, StandardJokers, 2);
  }

  /** The deck and the seats after the first k players have been handed `deal(epoch)`. */
  function DealHands(deck: seq<Card>, players: seq<Player>, epoch: int, k: nat): (r: (seq<Card>, seq<Player>))
    requires k <= |players|
    ensures |r.1| == |players|
  {
    if k == 0 then (deck, players)
    else
      var prev := DealHands(deck, players, epoch, k - 1);
      DealOne(prev.0, prev.1, k, epoch)
  }

  /** `deal(epoch)` from deck d into seat k - 1: the deck keeps its head, the seat gets the reversed tail. */
  function DealOne(d: seq<Card>, ps: seq<Player>, k: nat, epoch: int): (r: (seq<Card>, seq<Player>))
    requires 0 < k <= |ps|
    ensures |r.1| == |ps|
  {
    var t := TailStart(epoch, |d|);
    (d[..t], ps[k - 1 := ps[k - 1].(hand := Reversed(d[t..]))])
  }

  /** How many cards are left in a deck of `len` after k calls of `deal(epoch)`. */
  function Left(len: nat, k: nat, epoch: int): nat
  {
    if k == 0 then len else TailStart(epoch, Left(len, k - 1, epoch))
  }

  lemma {:induction false} DealHandsLeft(deck: seq<Card>, players: seq<Player>, epoch: int, k: nat)
    requires k <= |players|
    ensures |DealHands(deck, players, epoch, k).0| == Left(|deck|, k, epoch)
  {
    if k > 0 {
      DealHandsLeft(deck, players, epoch, k - 1);
    }
  }

  /** With a positive epoch every deal takes `epoch` cards until the deck runs out. */
  lemma {:induction false} LeftPositive(len: nat, k: nat, epoch: int)
    requires epoch >= 1
    ensures Left(len, k, epoch) == if k * epoch <= len then len - k * epoch else 0
  {
    if k > 0 {
      LeftPositive(len, k - 1, epoch);
      assert (k - 1) * epoch == k * epoch - epoch;
    }
  }

  /** Seats not yet dealt to are untouched, and no seat changes its id. */
  lemma {:induction false} DealHandsSeats(deck: seq<Card>, players: seq<Player>, epoch: int, k: nat)
    requires k <= |players|
    ensures var ps := DealHands(deck, players, epoch, k).1;
      (forall i :: k <= i < |players| ==> ps[i] == players[i]) &&
      (forall i :: 0 <= i < |players| ==> ps[i].id == players[i].id)
  {
    if k > 0 {
      DealHandsSeats(deck, players, epoch, k - 1);
    }
  }

  /** What has been dealt, together with what is left, is the deck that was dealt from. */
  lemma {:induction false} DealHandsConserves(deck: seq<Card>, players: seq<Player>, epoch: int, k: nat)
    requires k <= |players|
    ensures var r := DealHands(deck, players, epoch, k);
      multiset(r.0) + Hands(r.1[..k]) == multiset(deck)
  {
    if k > 0 {
      DealHandsConserves(deck, players, epoch, k - 1);
      var prev := DealHands(deck, players, epoch, k - 1);
      DealStep(prev.0, prev.1, k, epoch);
    }
  }

  /** One `deal(epoch)` into seat k - 1 moves cards from the deck to that seat and nowhere else. */
  lemma DealStep(d: seq<Card>, ps: seq<Player>, k: nat, epoch: int)
    requires 0 < k <= |ps|
    ensures var r := DealOne(d, ps, k, epoch);
      multiset(r.0) + Hands(r.1[..k]) == multiset(d) + Hands(ps[..k - 1])
  {
    var t := TailStart(epoch, |d|);
    var dealt := Reversed(d[t..]);
    var qs := ps[k - 1 := ps[k - 1].(hand := dealt)];
    assert qs[..k] == ps[..k - 1] + [qs[k - 1]];
    HandsAppend(ps[..k - 1], qs[k - 1]);
    DealConserves(d, epoch);
  }

  /** With a positive epoch and enough cards, each of the first k seats holds exactly `epoch` cards. */
  lemma {:induction false} DealHandsSizes(deck: seq<Card>, players: seq<Player>, epoch: int, k: nat)
    requires k <= |players| && epoch >= 1 && k * epoch <= |deck|
    ensures var r := DealHands(deck, players, epoch, k);
      |r.0| == |deck| - k * epoch && forall i :: 0 <= i < k ==> |r.1[i].hand| == epoch
  {
    if k > 0 {
      assert (k - 1) * epoch == k * epoch - epoch;
      DealHandsSizes(deck, players, epoch, k - 1);
    }
  }

  /** `initialize_game`'s demands: the shuffle picks fit the deck, and a card is left to flip. */
  predicate CanInitialize(g: GameData, swaps: seq<nat>)
  {
    ValidSwaps(|g.deck|, swaps) && |swaps| == (if |g.deck| == 0 then 0 else |g.deck| - 1) &&
    Left(|g.deck|, |g.players|, g.epoch) > 0
  }

  /** The game after `initialize_game`: shuffle, deal `epoch` cards to every seat, flip one card. */
  function Initialized(g: GameData, swaps: seq<nat>): GameData
    requires CanInitialize(g, swaps)
  {
    var shuffled := Shuffled(g.deck, swaps);
    DealHandsLeft(shuffled, g.players, g.epoch, |g.players|);
    var r := DealHands(shuffled, g.players, g.epoch, |g.players|);
    g.(deck := r.0[..|r.0| - 1], players := r.1, pile := g.pile + [Last(r.0)])
  }

  /**
   * Initialising keeps every card of the deck and the pile in play (earlier hands
   * are replaced by the dealt ones).
   */
  lemma InitializeConserves(g: GameData, swaps: seq<nat>)
    requires CanInitialize(g, swaps)
    ensures var h := Initialized(g, swaps);
      multiset(h.deck) + multiset(h.pile) + Hands(h.players) == multiset(g.deck) + multiset(g.pile)
  {
    var shuffled := Shuffled(g.deck, swaps);
    var n := |g.players|;
    DealHandsLeft(shuffled, g.players, g.epoch, n);
    var r := DealHands(shuffled, g.players, g.epoch, n);
    ShuffledIsPermutation(g.deck, swaps);
    DealHandsConserves(shuffled, g.players, g.epoch, n);
    assert r.1[..n] == r.1;
    FlipConserves(r.0, g.pile);
    Regroup(multiset(r.0[..|r.0| - 1]), multiset(g.pile + [Last(r.0)]), multiset(r.0), multiset(g.pile),
      Hands(r.1), multiset(g.deck));
  }

  /** The card count behind `InitializeConserves`: the deck is split into hands, rest and flipped card. */
  lemma Regroup(rest: multiset<Card>, pile': multiset<Card>, dealtFrom: multiset<Card>, pile: multiset<Card>,
                hands: multiset<Card>, deck: multiset<Card>)
    requires rest + pile' == dealtFrom + pile && dealtFrom + hands == deck
    ensures rest + pile' + hands == deck + pile
  {
    forall z: Card
      ensures (rest + pile' + hands)[z] == (deck + pile)[z]
    {
      assert (rest + pile')[z] == (dealtFrom + pile)[z];
      assert (dealtFrom + hands)[z] == deck[z];
    }
  }

  /** Turning the top card of the deck onto the pile keeps both together as they were. */
  lemma FlipConserves(d: seq<Card>, pile: seq<Card>)
    requires |d| > 0
    ensures multiset(d[..|d| - 1]) + multiset(pile + [Last(d)]) == multiset(d) + multiset(pile)
  {
    assert d == d[..|d| - 1] + [Last(d)];
  }

  /** Initialising adds one card to the pile, keeps the number of seats and every seat's id. */
  lemma InitializeSeats(g: GameData, swaps: seq<nat>)
    requires CanInitialize(g, swaps)
    ensures var h := Initialized(g, swaps);
      |h.pile| == |g.pile| + 1 && |h.players| == |g.players| &&
      forall i :: 0 <= i < |g.players| ==> h.players[i].id == g.players[i].id
  {
    DealHandsSeats(Shuffled(g.deck, swaps), g.players, g.epoch, |g.players|);
  }

  /** With a positive epoch: every seat gets `epoch` cards and the deck shrinks by players * epoch + 1. */
  lemma InitializeDeals(g: GameData, swaps: seq<nat>)
    requires CanInitialize(g, swaps) && g.epoch >= 1
    ensures |g.players| * g.epoch < |g.deck|
    ensures var h := Initialized(g, swaps);
      |h.deck| == |g.deck| - |g.players| * g.epoch - 1 &&
      forall i :: 0 <= i < |h.players| ==> |h.players[i].hand| == g.epoch
  {
    var shuffled := Shuffled(g.deck, swaps);
    var n := |g.players|;
    LeftPositive(|g.deck|, n, g.epoch);
    DealHandsSizes(shuffled, g.players, g.epoch, n);
  }

  // ---------------------------------------------------------------------------
  // One turn: play_round
  // ---------------------------------------------------------------------------

  /** The seat that plays: `_players[_active_player]` must exist. */
  predicate HasActiveSeat(g: GameData)
  {
    0 <= g.active < |g.players|
  }

  /** The guards let the turn through: right player, cards in the deck, game not over. */
  predicate Proceeds(g: GameData)
    requires HasActiveSeat(g)
  {
    g.players[g.active].id == g.active && |g.deck| > 0 && !g.gameOver
  }

  /** The card the draw phase adds: the discard top, or the top of the deck (`deal(1)[0]`). */
  function Drawn(g: GameData, choice: DrawChoice): Card
    requires |g.deck| > 0 && (choice == GetDiscard ==> g.pile != [])
  {
    if choice == GetDiscard then Last(g.pile) else Last(g.deck)
  }

  /**
   * What `play_round` needs from the policies: the pile can be popped when the
   * discard is taken, and the card to discard is in the hand after drawing
   * (`list.remove` raises otherwise).
   */
  predicate TurnAllowed(g: GameData, choice: DrawChoice, discard: Card)
  {
    HasActiveSeat(g) &&
    (Proceeds(g) ==>
      (choice == GetDiscard ==> g.pile != []) &&
      discard in g.players[g.active].hand + [Drawn(g, choice)])
  }

  /** The hand after the draw phase and the discard phase. */
  function HandAfter(g: GameData, choice: DrawChoice, discard: Card): seq<Card>
    requires TurnAllowed(g, choice, discard) && Proceeds(g)
  {
    RemoveFirst(g.players[g.active].hand + [Drawn(g, choice)], discard)
  }

  /** The draw phase: the drawn card leaves the discard pile or the deck. */
  function AfterDraw(g: GameData, choice: DrawChoice): GameData
    requires |g.deck| > 0 && (choice == GetDiscard ==> g.pile != [])
  {
    if choice == GetDiscard then g.(pile := g.pile[..|g.pile| - 1])
    else g.(deck := g.deck[..|g.deck| - 1])
  }

  /** The going-out phase and the rotation to the next seat, once the discard is on the pile. */
  function Settle(g: GameData, scoresZero: bool): GameData
    requires |g.players| > 0
  {
    var outNow := !g.goOut && scoresZero;
    var remaining := if g.goOut || outNow then g.remaining - 1 else g.remaining;
    g.(goOut := g.goOut || outNow, remaining := remaining,
       gameOver := g.gameOver || |g.deck| == 0 || (g.goOut && remaining == 0),
       active := (g.active + 1) % |g.players|)
  }

  /** `play_round` with the draw-phase answer and the discard-phase card as inputs. */
  function Turn(g: GameData, choice: DrawChoice, discard: Card): GameData
    requires TurnAllowed(g, choice, discard)
  {
    var p := g.players[g.active];
    if p.id != g.active then g
    else if |g.deck| == 0 then g.(gameOver := true)
    else if g.gameOver then g
    else
      var hand := HandAfter(g, choice, discard);
      var d := AfterDraw(g, choice);
      var e := d.(pile := d.pile + [discard], players := g.players[g.active := p.(hand := hand)]);
      Settle(e, LowestScore(hand, g.epoch, false) == 0)
  }

  /** A turn by the wrong player changes nothing. */
  lemma WrongPlayerNoChange(g: GameData, choice: DrawChoice, discard: Card)
    requires TurnAllowed(g, choice, discard) && g.players[g.active].id != g.active
    ensures Turn(g, choice, discard) == g
  {
  }

  /** An empty deck at the start of a turn ends the game; the active seat does not move. */
  lemma EmptyDeckEndsGame(g: GameData, choice: DrawChoice, discard: Card)
    requires TurnAllowed(g, choice, discard) && g.players[g.active].id == g.active && |g.deck| == 0
    ensures var h := Turn(g, choice, discard);
      h.gameOver && h.active == g.active && h == g.(gameOver := true)
  {
  }

  /** Once the game is over a turn changes nothing. */
  lemma OverGameNoChange(g: GameData, choice: DrawChoice, discard: Card)
    requires TurnAllowed(g, choice, discard) && g.gameOver && |g.deck| > 0
    ensures Turn(g, choice, discard) == g
  {
  }

  /**
   * A completed turn: the player's hand keeps its size, the discarded card is the
   * new discard top, the deck loses its top card exactly on a deck draw, the other
   * seats are untouched, and the next seat becomes active.
   */
  lemma TurnEffects(g: GameData, choice: DrawChoice, discard: Card)
    requires TurnAllowed(g, choice, discard) && Proceeds(g)
    ensures var h := Turn(g, choice, discard);
      |h.players| == |g.players| &&
      |h.players[g.active].hand| == |g.players[g.active].hand| &&
      h.pile != [] && Last(h.pile) == discard &&
      (choice == DrawCard ==> h.deck == g.deck[..|g.deck| - 1] && |h.pile| == |g.pile| + 1) &&
      (choice == GetDiscard ==> h.deck == g.deck && |h.pile| == |g.pile|) &&
      (forall i :: 0 <= i < |g.players| && i != g.active ==> h.players[i] == g.players[i]) &&
      h.active == (g.active + 1) % |g.players| && 0 <= h.active < |h.players|
  {
  }

  /** A completed turn only moves cards around: deck, pile and hands hold the same cards as before. */
  lemma TurnConserves(g: GameData, choice: DrawChoice, discard: Card)
    requires TurnAllowed(g, choice, discard) && Proceeds(g)
    ensures Pool(Turn(g, choice, discard)) == Pool(g)
  {
    var p := g.players[g.active];
    var c := Drawn(g, choice);
    var hand := HandAfter(g, choice, discard);
    var d := AfterDraw(g, choice);
    var ps := g.players[g.active := p.(hand := hand)];
    var e := d.(pile := d.pile + [discard], players := ps);
    assert Turn(g, choice, discard) == Settle(e, LowestScore(hand, g.epoch, false) == 0);
    SettleKeepsCards(e, LowestScore(hand, g.epoch, false) == 0);
    DrawConserves(g, choice);
    assert multiset(hand) + multiset{discard} == multiset(p.hand) + multiset{c};
    HandsReplace(g.players, g.active, p.(hand := hand));
    assert multiset(e.pile) == multiset(d.pile) + multiset{discard};
    Rebalance(multiset(d.deck), multiset(d.pile), multiset(g.deck) + multiset(g.pile),
      multiset(p.hand), multiset(hand), Hands(g.players), Hands(ps), c, discard);
  }

  /** The going-out phase and the rotation move no card. */
  lemma SettleKeepsCards(g: GameData, scoresZero: bool)
    requires |g.players| > 0
    ensures Pool(Settle(g, scoresZero)) == Pool(g)
  {
    var h := Settle(g, scoresZero);
    assert h.deck == g.deck && h.pile == g.pile && h.players == g.players;
  }

  /** The drawn card, with what is left of the deck and the pile, is what they held before. */
  lemma DrawConserves(g: GameData, choice: DrawChoice)
    requires |g.deck| > 0 && (choice == GetDiscard ==> g.pile != [])
    ensures var d := AfterDraw(g, choice);
      multiset(d.deck) + multiset(d.pile) + multiset{Drawn(g, choice)} == multiset(g.deck) + multiset(g.pile)
  {
    if choice == GetDiscard {
      assert g.pile == g.pile[..|g.pile| - 1] + [Last(g.pile)];
    } else {
      assert g.deck == g.deck[..|g.deck| - 1] + [Last(g.deck)];
    }
  }

  /** The card count behind `TurnConserves`: one card drawn into a hand, one card from it onto the pile. */
  lemma Rebalance(deck: multiset<Card>, pile: multiset<Card>, before: multiset<Card>,
                  hand: multiset<Card>, hand': multiset<Card>, hands: multiset<Card>, hands': multiset<Card>,
                  drawn: Card, discard: Card)
    requires deck + pile + multiset{drawn} == before
    requires hand' + multiset{discard} == hand + multiset{drawn}
    requires hands' + hand == hands + hand'
    ensures deck + (pile + multiset{discard}) + hands' == before + hands
  {
    forall z: Card
      ensures (deck + (pile + multiset{discard}) + hands')[z] == (before + hands)[z]
    {
      assert (deck + pile + multiset{drawn})[z] == before[z];
      assert (hand' + multiset{discard})[z] == (hand + multiset{drawn})[z];
      assert (hands' + hand)[z] == (hands + hand')[z];
    }
  }

  /**
   * Before anyone has gone out: a hand that scores 0 after the discard goes out,
   * taking one off the players still to reveal; the game ends only if the deck ran out.
   */
  lemma TurnGoesOut(g: GameData, choice: DrawChoice, discard: Card)
    requires TurnAllowed(g, choice, discard) && Proceeds(g) && !g.goOut
    ensures var h := Turn(g, choice, discard);
      var out := LowestScore(HandAfter(g, choice, discard), g.epoch, false) == 0;
      (h.goOut <==> out) &&
      h.remaining == (if out then g.remaining - 1 else g.remaining) &&
      (h.gameOver <==> h.deck == [])
  {
  }

  /**
   * Once someone has gone out: every completed turn takes one off the players still
   * to reveal, and the game ends when that count reaches 0 or the deck runs out.
   */
  lemma TurnWhileGoingOut(g: GameData, choice: DrawChoice, discard: Card)
    requires TurnAllowed(g, choice, discard) && Proceeds(g) && g.goOut
    ensures var h := Turn(g, choice, discard);
      h.goOut && h.remaining == g.remaining - 1 &&
      (h.gameOver <==> h.deck == [] || h.remaining == 0)
  {
  }

  // ---------------------------------------------------------------------------
  // The live game
  // ---------------------------------------------------------------------------

  /** `Game`: the session object whose deck, pile, hands and flags change in place. */
  class Game {
    var ranks: seq<int>
    var suits: seq<Suit>
    var jokers: nat
    const deck: Deck
    const fullDeck: Deck
    var epoch: int
    var players: seq<Player>
    var active: int
    var pile: seq<Card>
    var goOut: bool
    var remaining: int
    var gameOver: bool

    /** The two decks are different objects, and the active seat never goes negative. */
    predicate Valid()
      reads this
    {
      deck != fullDeck && 0 <= active
    }

    /** A deep copy of the game. */
    function Snapshot(): GameData
      reads this, deck, fullDeck
    {
      GameData(ranks, suits, jokers, deck.cards, fullDeck.cards, epoch, players, active, pile,
        goOut, remaining, gameOver, None)
    }

    /** `Game.__init__`. */
    constructor (players: seq<Player>, ranks: seq<int> := StandardRanks, suits: seq<Suit> := StandardSuits,
                 jokers: nat := StandardJokers, epoch: int := 3)
      ensures Valid() && fresh(deck) && fresh(fullDeck)
      ensures Snapshot() == NewGame(players, ranks, suits, jokers, epoch)
    {
      this.ranks := ranks;
      this.suits := suits;
      this.jokers := jokers;
      this.deck := new Deck(ranks, suits, jokers, 2);
      this.fullDeck := new Deck(StandardRanks, StandardSuits, StandardJokers, 2);
      this.epoch := epoch;
      this.players := players;
      this.active := 0;
      this.pile := [];
      this.goOut := false;
      this.remaining := |players|;
      this.gameOver := false;
      new;
      assert deck.cards == NewGame(players, ranks, suits, jokers, epoch).deck;
      assert fullDeck.cards == NewGame(players, ranks, suits, jokers, epoch).fullDeck;
    }

    function AllRanks(): (r: seq<int>)
      reads this
      ensures r == Snapshot().ranks
    {
      ranks
    }

    function AllSuits(): (r: seq<Suit>)
      reads this
      ensures r == Snapshot().suits
    {
      suits
    }

    function NumJokers(): (r: nat)
      reads this
      ensures r == Snapshot().jokers
    {
      jokers
    }

    function NumPlayers(): (n: nat)
      reads this
      ensures n == |Snapshot().players|
    {
      |players|
    }

    /** `get_deck()`: the deck object itself. */
    function GetDeck(): (d: Deck)
      ensures d.cards == Snapshot().deck
    {
      deck
    }

    /** `get_full_deck()`: the reference deck object itself. */
    function GetFullDeck(): (d: Deck)
      ensures d.cards == Snapshot().fullDeck
    {
      fullDeck
    }

    function GetEpoch(): (e: int)
      reads this
      ensures e == Snapshot().epoch
    {
      epoch
    }

    function GetActivePlayer(): (a: int)
      reads this
      ensures a == Snapshot().active
    {
      active
    }

    function GetRemainingPlayers(): (n: int)
      reads this
      ensures n == Snapshot().remaining
    {
      remaining
    }

    function GetDiscardPile(): (p: seq<Card>)
      reads this
      ensures p == Snapshot().pile
    {
      pile
    }

    function IsGameOver(): (b: bool)
      reads this
      ensures b == Snapshot().gameOver
    {
      gameOver
    }

    function IsGoingOut(): (b: bool)
      reads this
      ensures b == Snapshot().goOut
    {
      goOut
    }

    /** `get_player_hand(player_id)`: Python indexing, so a negative id counts from the end. */
    function GetPlayerHand(playerId: int): (h: seq<Card>)
      reads this
      requires -|players| <= playerId < |players|
      ensures h == Snapshot().players[if playerId < 0 then |players| + playerId else playerId].hand
    {
      if playerId < 0 then players[|players| + playerId].hand else players[playerId].hand
    }

    /** `initialize_game`, with the shuffle's random picks passed in. */
    method InitializeGame(swaps: seq<nat>)
      requires Valid() && CanInitialize(Snapshot(), swaps)
      modifies this, deck
      ensures Valid() && Snapshot() == Initialized(old(Snapshot()), swaps)
    {
      deck.Shuffle(swaps);
      DealHandsLeft(deck.cards, players, epoch, |players|);
      DealRound();
      FlipTop();
    }

    /** The dealing loop of `initialize_game`: every seat in turn gets `deal(epoch)`. */
    method DealRound()
      requires Valid()
      modifies this, deck
      ensures var r := DealHands(old(deck.cards), old(players), old(epoch), |old(players)|);
        Valid() && Snapshot() == old(Snapshot()).(deck := r.0, players := r.1)
    {
      ghost var g := Snapshot();
      var i := 0;
      while i < |players|
        invariant 0 <= i <= |players| == |g.players|
        invariant deck.cards == DealHands(g.deck, g.players, epoch, i).0
        invariant players == DealHands(g.deck, g.players, epoch, i).1
        invariant Valid() && Snapshot() == g.(deck := deck.cards, players := players)
      {
        DealTo(i);
        i := i + 1;
      }
    }

    /** One pass of the dealing loop: seat i gets `deal(epoch)`. */
    method DealTo(i: nat)
      requires Valid() && i < |players|
      modifies this, deck
      ensures var t := TailStart(old(epoch), |old(deck.cards)|);
        deck.cards == old(deck.cards)[..t] &&
        players == old(players)[i := old(players)[i].(hand := Reversed(old(deck.cards)[t..]))]
      ensures Valid() && Snapshot() == old(Snapshot()).(deck := deck.cards, players := players)
    {
      var hand := deck.Deal(epoch);
      players := players[i := players[i].(hand := hand)];
    }

    /** The end of `initialize_game`: `deal(1)` and the card goes onto the discard pile. */
    method FlipTop()
      requires Valid() && |deck.cards| > 0
      modifies this, deck
      ensures Valid() && Snapshot() == old(Snapshot()).(deck := old(deck.cards)[..|old(deck.cards)| - 1],
        pile := old(pile) + [Last(old(deck.cards))])
    {
      var top := deck.Deal(1);
      pile := pile + [top[0]];
    }

    /**
     * `play_round`, with the active player's draw-phase answer and discard-phase
     * card as inputs. The wrong-player message is not printed.
     */
    method PlayRound(choice: DrawChoice, discard: Card)
      requires Valid() && TurnAllowed(Snapshot(), choice, discard)
      modifies this, deck
      ensures Valid() && Snapshot() == Turn(old(Snapshot()), choice, discard)
    {
      var player := players[active];
      if player.id != active {
        return;
      }
      if deck.Size() == 0 {
        gameOver := true;
        return;
      }
      if gameOver {
        return;
      }
      ghost var g := Snapshot();
      var drawn := TakeCard(choice);
      var hand := RemoveFirst(player.hand + [drawn], discard);
      pile := pile + [discard];
      players := players[active := player.(hand := hand)];
      ghost var e := Snapshot();
      assert e == AfterDraw(g, choice).(pile := AfterDraw(g, choice).pile + [discard],
        players := g.players[g.active := player.(hand := hand)]);
      EndTurn(hand);
    }

    /** The draw phase of `play_round`: pop the discard pile or deal one card from the deck. */
    method TakeCard(choice: DrawChoice) returns (drawn: Card)
      requires Valid() && |deck.cards| > 0 && (choice == GetDiscard ==> pile != [])
      modifies this, deck
      ensures Valid() && drawn == Drawn(old(Snapshot()), choice)
      ensures Snapshot() == AfterDraw(old(Snapshot()), choice)
    {
      if choice == GetDiscard {
        drawn := pile[|pile| - 1];
        pile := pile[..|pile| - 1];
      } else {
        var dealt := deck.Deal(1);
        drawn := dealt[0];
      }
    }

    /** The going-out phase of `play_round` and the move to the next seat. */
    method EndTurn(hand: seq<Card>)
      requires Valid() && |players| > 0
      modifies this
      ensures Valid() && Snapshot() == Settle(old(Snapshot()), LowestScore(hand, old(epoch), false) == 0)
    {
      if goOut {
        if deck.Size() == 0 {
          gameOver := true;
        }
        remaining := remaining - 1;
        if remaining == 0 {
          gameOver := true;
        }
      } else {
        if deck.Size() == 0 {
          gameOver := true;
        }
        var score := ScoreHand(hand, epoch, false);
        if score == 0 {
          remaining := remaining - 1;
          goOut := true;
        }
      }
      active := (active + 1) % |players|;
    }
  }
}
