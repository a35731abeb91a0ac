# Five Crowns, modelled in Dafny

A model of the core of a Five Crowns card-game simulator, with proofs about it.

In the game, every player holds `epoch` cards. On a turn a player draws a card, either from the deck or
from the top of the discard pile, and then throws one card back. Wildcards are the jokers and every card
whose rank equals the epoch. A hand's score is the lowest total left after removing one zero-cost meld
(a book or a run of 3..epoch cards). A player whose hand scores 0 goes out, and every other player then
gets one last turn.

The modules follow the source files:

| module | file | form |
|---|---|---|
| `Lists` | Python list behaviour used everywhere | functions: `list.remove`, `reverse`, `sum` |
| `Cards` | deck.py | `Card` is a datatype; `Deck` is a class whose `cards` field its methods reassign |
| `Scoring` | scoring.py | functions, with `ScoringSet`, `ScoreHand` and `GetBestDiscard` as the loop methods the source runs, each proved equal to its specification function |
| `FiveCrowns` | five_crowns.py | `Game` is a class with the source's fields; `GameData` is a value copy of them, on which the turn rule `Turn` and the deal `Initialized` are stated |
| `SearchState` | state.py | a search-tree node over a `GameData` copy: actions, successor, payoff, equality |
| `Greedy` | greedy.py | the greedy player's draw and discard decisions |
| `Encoding` | dqn_infer.py | card/index arithmetic and the state vector given to the network |

Where a choice depends on chance, the model takes the random pick as a parameter:
- The Fisher–Yates swap indices of `random.shuffle`.
- The index that `random.choice` picks.

The properties proved include the following:
- `score_hand` is the minimum over all melds of the hand, and it does not depend on the hand's order.
- `get_best_discard` returns the first card with the lowest score.
- Dealing, a turn and a search successor all conserve the multiset of cards in the deck, the discard
  pile and the hands.
- The search actions are exactly the listed moves, with their counts.
- The greedy player takes the discard exactly when its score beats the average over the unseen cards.
- Card indices round-trip for the game's 55 standard cards. The jokers collide with the Stars jack.

The source and its documentation disagree in several places, among them the following; the model follows the code:
- `card_value` compares the method `card.rank` itself with the epoch. That test never holds, so a card
  is always worth its rank and never 20.
- A root action in `State.successor` discards a card without drawing one, so that hand shrinks by one.
- Index 52 is both the joker's index and the Stars jack's index, so `idx_to_card(52)` is the jack.
- `Deck.deal(n)` is documented as returning the next n cards, but `cards[-n:]` hands out the whole
  deck for n = 0 and for n larger than the deck.
- `Deck.draw` is documented as returning the card drawn, but on an empty deck it falls through and
  returns None.
- `State.is_terminal` is documented as true exactly when the game is over. Below the root it is also
  true when the deck is empty or the acting hand scores 0.
- `Game.get_deck` is documented as returning the deck with no cards missing. It returns the live deck,
  which dealing and drawing have already shrunk.

## Model

| member | source | states |
|---|---|---|
| Lists.Reversed | deck.py:108-109 | the reversed list has the same length and holds element `len-1-i` at position i |
| Lists.RemoveFirst | five_crowns.py:166 | `list.remove(x)` deletes the first element equal to x and keeps the others in order, so exactly one copy goes and the list shortens by one |
| Cards.CardEquals | deck.py:45-49 | two cards are equal iff the other object is a card with the same rank and suit |
| Cards.ProductShape | deck.py:83 | `it.product(ranks, suits)` yields len(ranks)·len(suits) cards, each of a listed rank and a listed suit |
| Cards.FreshDeckSize | deck.py:81-84 | a new deck holds copies·(len(ranks)·len(suits) + jokers) cards |
| Cards.FreshDeckMembers | deck.py:81-84 | every card of a new deck is a listed rank/suit pair or the joker (50, "J"); conversely, once there is a copy, every listed pair is in the deck, and so is the joker when there are jokers |
| Cards.TailStart | deck.py:108 | where the slice `[-n:]` starts: len−n for 1 ≤ n ≤ len; the whole list for n = 0 or n > len |
| Cards.ShuffledIsPermutation | deck.py:86-90 | a shuffle only permutes the cards |
| Cards.Deck.constructor | deck.py:68-84 | the new deck's cards, copy after copy, rank-major, with the jokers after each copy |
| Cards.Deck.Shuffle | deck.py:86-90 | the Fisher–Yates order for the given picks, and a permutation of the old cards |
| Cards.Deck.Size | deck.py:92-99 | the number of cards left |
| Cards.Deck.GetCards | deck.py:113-120 | the card list itself |
| Cards.Deck.Deal | deck.py:101-111 | returns the slice `[-n:]` reversed and keeps the part before it |
| Cards.Deck.Draw | deck.py:122-132 | a non-empty deck returns the picked card and loses the first equal copy; an empty deck gives None and is unchanged |
| Cards.DealConserves | deck.py:101-111 | the cards dealt and the cards kept are together the deck's cards |
| Cards.DealTakesTop | deck.py:101-111 | for 1 ≤ n ≤ size, `deal(n)` returns the top n cards topmost first and keeps the rest in order |
| Cards.DealAll | deck.py:101-111 | `deal(0)` and `deal(n)` for n > size hand out the whole deck |
| Cards.DrawRemovesOne | deck.py:129-132 | drawing removes exactly one copy of the drawn card |
| Scoring.CardValue | five_crowns.py:113-119 | the test compares the method object `card.rank` with the integer epoch, which are never equal, so a card's value is its rank |
| Scoring.ScoreCard | scoring.py:61-65 | with keep_wild a wildcard counts 0; otherwise a card counts its value |
| Scoring.NonWild | scoring.py:30-36 | the cards kept are exactly the non-wild ones |
| Scoring.ScoringSet | scoring.py:26-49 | the one-pass loop decides exactly the book-or-run predicate `IsScoringSet` |
| Scoring.ScoringSetPermutation | scoring.py:26-49 | whether cards form a scoring set does not depend on their order |
| Scoring.AllWildIsNotScoringSet | scoring.py:38-49 | a subset of wildcards only is no scoring set: with no non-wild cards the rank set and the suit set are both empty, so neither the book test nor the run test (whose `max` is then never reached) holds |
| Scoring.BookIsScoringSet | scoring.py:38-40 | non-wild cards of one rank form a book |
| Scoring.RunIsScoringSet | scoring.py:41-48 | non-wild cards of one suit, no two with the same rank, whose ranks lie in [lo, lo + len(sub) − 1] with both ends present, form a run: the wildcards fill the missing places |
| Scoring.ConsecutiveRun | scoring.py:41-48 | three consecutive non-wild cards of a suit are a scoring set |
| Scoring.WildInGapRun | scoring.py:41-48 | a wildcard filling the middle gap of a run makes a scoring set |
| Scoring.WildAtRunEndIsNotScoringSet | scoring.py:44-48 | a wildcard cannot extend two consecutive cards at an end: the span test fails |
| Scoring.CombinationsSound | scoring.py:70 | every combination has the window size and is drawn from the hand |
| Scoring.CombinationsComplete | scoring.py:70 | every sub-multiset of the window size occurs among the combinations |
| Scoring.ScoreHand | scoring.py:52-78 | the nested loops compute `LowestScore` |
| Scoring.ScoreHandIsMinimum | scoring.py:67-78 | the score is at most the total left after any meld, and equals the no-meld total or the total after some meld |
| Scoring.ScoreHandPermutation | scoring.py:52-78 | the score depends only on the multiset of the hand |
| Scoring.ScoreHandNonNegative | scoring.py:67-78 | with non-negative ranks the score is non-negative |
| Scoring.ScoreHandKeepWild | scoring.py:61-65 | keeping wildcards at 0 never raises the score |
| Scoring.WholeHandMeldScoresZero | scoring.py:69-76 | a hand that is itself a meld scores 0 |
| Scoring.RunOfThreeGoesOut | scoring.py:52-78 | 6, 7, 8 of Clubs in epoch 3 score 0 |
| Scoring.WildFillsGap | scoring.py:52-78 | a 3 (wild in epoch 3) fills 4 _ 6 of Clubs and the hand scores 0 |
| Scoring.ExtraCopyOfMeldCardIsFree | scoring.py:74 | an extra copy of a card of a meld costs nothing: the hand with it scores at most what the hand leaves after that meld |
| Scoring.DuplicatesLeaveTogether | scoring.py:74 | removing a meld drops every equal copy, so four equal 7s score 0 |
| Scoring.JokerCannotExtendRun | scoring.py:41-48 | a joker before 4, 5 of Clubs is no run; the hand scores 59 |
| Scoring.BestDiscard | scoring.py:7-23 | no card is chosen exactly when every card equals the excluded one |
| Scoring.BestDiscardIsFirstMinimum | scoring.py:15-22 | the chosen card is the first eligible card of least score, and its score is reported |
| Scoring.GetBestDiscard | scoring.py:7-23 | the loop computes `BestDiscard` |
| FiveCrowns.NewGameStart | five_crowns.py:19-39 | a new game's deck has 2·(len(ranks)·len(suits)+jokers) cards, the full deck 116; seat 0 moves first, the pile is empty, all players remain |
| FiveCrowns.Game.constructor | five_crowns.py:19-39 | the new game's state is `NewGame` of its arguments, with two fresh decks; the ranks, suits, jokers and epoch default to 3..13, the five suits, 3 and 3 |
| FiveCrowns.Game.AllRanks | five_crowns.py:41-45 | the ranks the game was made with |
| FiveCrowns.Game.AllSuits | five_crowns.py:47-51 | the suits the game was made with |
| FiveCrowns.Game.NumJokers | five_crowns.py:53-57 | the joker count |
| FiveCrowns.Game.NumPlayers | five_crowns.py:59-63 | the number of seats |
| FiveCrowns.Game.GetDeck | five_crowns.py:65-69 | the deck object, holding the game's deck |
| FiveCrowns.Game.GetFullDeck | five_crowns.py:71-75 | the reference deck object |
| FiveCrowns.Game.GetEpoch | five_crowns.py:77-81 | the epoch |
| FiveCrowns.Game.GetActivePlayer | five_crowns.py:83-87 | the active seat |
| FiveCrowns.Game.GetRemainingPlayers | five_crowns.py:89-93 | the players still to play |
| FiveCrowns.Game.GetDiscardPile | five_crowns.py:95-99 | the discard pile |
| FiveCrowns.Game.IsGameOver | five_crowns.py:101-105 | the game-over flag |
| FiveCrowns.Game.IsGoingOut | five_crowns.py:107-111 | the going-out flag |
| FiveCrowns.Game.GetPlayerHand | five_crowns.py:121-122 | the hand of seat `player_id`, a negative id counting from the end |
| FiveCrowns.DealHandsSeats | five_crowns.py:130-131 | dealing replaces only the hands of the first k seats and keeps every id |
| FiveCrowns.DealHandsConserves | five_crowns.py:130-131 | the deck left plus the dealt hands are the deck dealt from |
| FiveCrowns.DealHandsSizes | five_crowns.py:130-131 | with enough cards, each dealt hand has epoch cards and the deck shrinks by k·epoch |
| FiveCrowns.InitializeConserves | five_crowns.py:124-134 | after shuffling, dealing and flipping, deck, pile and hands hold the cards the deck and pile held |
| FiveCrowns.InitializeSeats | five_crowns.py:124-134 | the pile gains one card and the seats keep their ids |
| FiveCrowns.InitializeDeals | five_crowns.py:124-134 | when players·epoch < deck size, each hand gets epoch cards and the deck loses players·epoch + 1 |
| FiveCrowns.WrongPlayerNoChange | five_crowns.py:143-147 | a turn by a seat whose id is not the active index changes nothing |
| FiveCrowns.EmptyDeckEndsGame | five_crowns.py:149-152 | an empty deck only sets game over, and the active seat stays |
| FiveCrowns.OverGameNoChange | five_crowns.py:154-155 | a finished game with cards left does not change |
| FiveCrowns.TurnEffects | five_crowns.py:157-194 | the mover's hand keeps its size; the discard tops the pile; a draw takes the top deck card; taking the discard pops it; the turn passes on |
| FiveCrowns.TurnConserves | five_crowns.py:157-192 | a turn keeps the multiset of cards in deck, pile and hands |
| FiveCrowns.TurnGoesOut | five_crowns.py:175-194 | outside going out, the player goes out iff the new hand scores 0, and the game ends iff the deck is empty |
| FiveCrowns.TurnWhileGoingOut | five_crowns.py:157-174 | while going out, every turn uses one of the remaining turns, and the game ends when the deck or the turns run out |
| FiveCrowns.Game.InitializeGame | five_crowns.py:124-134 | the new state is `Initialized` of the old one |
| FiveCrowns.Game.DealRound | five_crowns.py:130-131 | the deal loop gives every seat its hand as `DealHands` says |
| FiveCrowns.Game.DealTo | five_crowns.py:131 | seat i's hand becomes the reversed top epoch cards, which leave the deck |
| FiveCrowns.Game.FlipTop | five_crowns.py:134 | the top deck card moves onto the pile |
| FiveCrowns.Game.PlayRound | five_crowns.py:136-194 | the new state is `Turn` of the old one |
| FiveCrowns.Game.TakeCard | five_crowns.py:159-162 | the drawn card comes off the pile top or the deck top, as `Drawn` and `AfterDraw` say |
| FiveCrowns.Game.EndTurn | five_crowns.py:169-194 | the going-out flags and the rotation are updated as `Settle` says |
| SearchState.Actor | state.py:127-134 | the actor is a seat of the game, and its hand is the node's hand |
| SearchState.IsTerminal | state.py:27-34 | a finished game is terminal; the root is terminal exactly when the game is over; a non-terminal inner node has a card in the deck and admits the blind deck move |
| SearchState.Payoff | state.py:112-125 | the payoff is 0, 1 or −1, and it is 0 exactly when nobody has gone out |
| SearchState.GetActions | state.py:36-56 | the loops build exactly `Actions` |
| SearchState.AppendOffer | state.py:49-54 | appends one action per hand card, in order |
| SearchState.RootOfferCount | state.py:41 | the root offers one action per hand card that differs from the root card |
| SearchState.RootActions | state.py:40-41 | at the root the actions are exactly the hand cards other than the root card, and there are as many as those cards |
| SearchState.InnerActions | state.py:43-54 | elsewhere the actions are exactly the discard moves (when the pile is non-empty), the blind deck move and the deck moves; there are (2 or 1)·len(hand)+1 of them |
| SearchState.OfferMembers | state.py:49-54 | an offer holds exactly the actions of its source naming a hand card |
| SearchState.Successor | state.py:58-110 | the step-by-step copy, draw, discard and going-out check produce `Succ` |
| SearchState.TakeCard | state.py:79-86 | the first half of an action: draw from the deck, pop the pile, or nothing |
| SearchState.GoingOut | state.py:97-108 | the going-out flags are updated exactly when the score is 0 |
| SearchState.SuccessorMoves | state.py:69-95 | the next node is not a root, the turn passes on, only the mover's hand changes, its size is kept (one less at the root), and the discard tops the pile |
| SearchState.DeckDrawDiscarded | state.py:81-91 | a blind deck move discards the drawn card and keeps the hand's multiset |
| SearchState.SuccessorConserves | state.py:79-95 | a successor keeps the multiset of cards in deck, pile and hands |
| SearchState.SuccessorGoingOut | state.py:97-108 | a 0 score sets going out, uses a turn, records the first player out and ends the game when no turns remain; otherwise the flags stay |
| SearchState.LastRevealEndsSearch | state.py:27-34 | when the last remaining player goes out, the successor is terminal |
| SearchState.PayoffAfterGoingOut | state.py:112-125 | after a move that goes out, the successor's payoff is not 0 |
| SearchState.OfferedActionsApply | state.py:36-95 | every offered action can be applied in a non-terminal node |
| SearchState.Equal | state.py:141-146 | equality looks at the actor, the hand and the pile top only, and equal inner nodes offer the same actions |
| Greedy.RemoveAll | greedy.py:41-44 | removing the visible cards one by one leaves the full deck minus them |
| Greedy.Unvisited | greedy.py:41-44 | the removal loop computes `RemoveAll` |
| Greedy.UnseenCards | greedy.py:41-48 | the unseen cards are the full deck less the pile and the hand, at least one, with one draw score each |
| Greedy.DrawPhase | greedy.py:25-54 | the loops compute `DrawDecision` |
| Greedy.TakesDiscardWhenEveryDrawIsWorse | greedy.py:49-54 | if every possible draw scores worse than the discard option, the player takes the discard |
| Greedy.TakesDiscardOnlyIfSomeDrawIsWorse | greedy.py:49-54 | the player takes the discard only if it has a card to throw back and some draw scores worse |
| Greedy.DrawScoreAtMostHand | greedy.py:45-48 | a draw score is at most the current hand's score |
| Greedy.DiscardPhase | greedy.py:56-67 | None exactly for an empty hand; otherwise the first card whose removal scores least |
| Encoding.SuitsInOrder | dqn_infer.py:19-26 | the five game suits are dictionary entries 0..4 in both directions |
| Encoding.CardToIdx | dqn_infer.py:7-28 | an index exists exactly for the five game suits and "J"; a game-suit card maps to 11·(suit position) + rank − 3, and any joker to 52 |
| Encoding.IdxToCard | dqn_infer.py:31-58 | a card exists exactly for indices 0..65; 0..54 give rank idx mod 11 + 3 of suit idx div 11, and 55..65 the joker |
| Encoding.RoundTrip | dqn_infer.py:7-58 | every game card of rank 3..13 comes back from its index |
| Encoding.IndexRoundTrip | dqn_infer.py:7-58 | every index 0..54 decodes to a card that maps back to it |
| Encoding.JokerCollision | dqn_infer.py:28 | the joker and the Stars jack share index 52, which decodes to the jack |
| Encoding.Slot | dqn_infer.py:81-82 | a card's array position, when there is one, is within the array |
| Encoding.EncodeState | dqn_infer.py:61-95 | the array loops compute `Encoded` |
| Encoding.HandCountsMeaning | dqn_infer.py:78-82 | counting succeeds iff every hand card has a position; entry k counts the cards at k, and the entries sum to the hand size |
| Encoding.EncodedLayout | dqn_infer.py:61-95 | length 2n+1, hand counts, a one-hot discard or zeros, and the flag as 0/1 |
| Encoding.EncodedFails | dqn_infer.py:78-88 | the encoding fails iff a hand card or the discard has no position |
| Encoding.GameCardsHaveSlots | dqn_infer.py:76-82 | with 55 or more distinct cards, every game card and the joker are counted at their own index |

## Left out

- MCTS search, the random, DQN and MCTS players, the network and `inference`, hashing and the test script are not part of this model.
- Randomness is modelled by parameters: `Deck.Shuffle` takes the Fisher–Yates swap picks, and `Deck.Draw` and `Successor` take the index `random.choice` picks.
- Players are modelled by value (`Player(id, hand)`). The player objects are not shared, so aliasing between a game and its players is not modelled. A player's `draw_phase`/`discard_phase` answers are `PlayRound`'s parameters.
- The "Wrong player taking turn" message is not modelled; only the early return is.
- FiveCrowns.Game.PlayRound: the requires (`TurnAllowed`) excludes the source's error paths: an active index with no seat (IndexError, five_crowns.py:143), taking the discard from an empty pile (`pop` raises IndexError, lines 160 and 178), and a discard that is not in the hand after the draw (`remove` raises ValueError, lines 166 and 184).
- FiveCrowns.Game.InitializeGame: the requires (`CanInitialize`) demands a card left after dealing. In the source, `deal(1)[0]` on an empty deck raises IndexError (five_crowns.py:134).
- FiveCrowns.Game.GetPlayerHand: the requires keeps the seat index within Python's range. Outside it, the source raises IndexError (five_crowns.py:122).
- `GetBestDiscard`'s infinite score is the `NoDiscard` case.
- Greedy.DrawPhase: the float average `sum / len` is compared as `score * len < sum`. This is the same test for a non-empty list of integer scores.
- Greedy.DrawPhase: the requires excludes three error paths of greedy.py: an empty pile (`pile[-1]` raises IndexError, line 36), a visible card missing from the full deck (`remove` raises ValueError, lines 43-44), and no unseen card at all (division by zero, line 49).
- Encoding.EncodeState: numpy's float arrays are modelled as integer counts. `num_players` is accepted and not used, as in the source.
- Encoding.EncodedLayout: the number of distinct cards in the full deck is left symbolic. The model does not compute the 56 of the standard deck.
- SearchState.Successor: a deck action requires a card in the deck. On an empty deck `draw()` returns None (deck.py:129-132), which is appended to the hand (state.py:82-83). For the blind move `("deck", None)` that None is removed again and put on the pile (state.py:89-91). For `("deck", c)` the None stays in the hand, and `score_hand` then fails on it (scoring.py:64-65, five_crowns.py:117). The search never gets there: it takes successors of non-terminal nodes only (mcts.py:174-176), and a non-terminal node below the root has a card in the deck (`SearchState.IsTerminal`).
- SearchState.Successor: the requires also excludes a discard taken from an empty pile (`pop` raises IndexError, state.py:85) and a card to discard that is not in the hand (`remove` raises ValueError, state.py:90, 94). `SearchState.OfferedActionsApply` shows that every offered action meets it.
- SearchState.SuccessorMoves: a root action discards without drawing, so the mover's hand shrinks by one instead of keeping its size.
- State copies (`deepcopy`) are modelled as `GameData` values. A search node's cached fields (active seat, hand, discard top) are computed from that value.
