/**
 * dqn_infer.py without the network: the card <-> index arithmetic and the
 * vector a player's view of the game is encoded into.
 */
module Encoding {
  import opened Lists
  import opened Cards
  import opened FiveCrowns

  /** `card_to_idx`'s suit dictionary; a suit it does not list raises KeyError (None). */
  function SuitIndex(suit: Suit): Option<int>
  {
    if suit == "Clubs" then Some(0)
    else if suit == "Diamonds" then Some(1)
    else if suit == "Hearts" then Some(2)
    else if suit == "Spades" then Some(3)
    else if suit == "Stars" then Some(4)
    else if suit == "J" then Some(5)
    else None
  }

  /** `idx_to_card`'s suit dictionary, keyed by `idx // 11`. */
  function IndexSuit(k: int): Option<Suit>
  {
    if k == 0 then Some("Clubs")
    else if k == 1 then Some("Diamonds")
    else if k == 2 then Some("Hearts")
    else if k == 3 then Some("Spades")
    else if k == 4 then Some("Stars")
    else if k == 5 then Some("J")
    else None
  }

  /** `card_to_idx(suit, rank)`: 11 * suit index + rank - 3, with rank read as 0 for jokers. */
  function CardToIdx(suit: Suit, rank: int): (r: Option<int>)
    ensures r.Some? <==> suit in StandardSuits || suit == JokerSuit
    ensures forall k :: 0 <= k < |StandardSuits| && StandardSuits[k] == suit ==> r == Some(11 * k + rank - 3)
    ensures suit == JokerSuit ==> r == Some(52)
  {
    match SuitIndex(suit)
    case None => None
    case Some(s) => Some(11 * s + (if suit != JokerSuit then rank else 0) - 3)
  }

  /**
   * `idx_to_card(idx)`: suit from `idx // 11`, rank `idx % 11 + 3` or 50 for jokers.
   * Python's `//` and `%` floor, which for the divisor 11 is what `/` and `%` do here.
   */
  function IdxToCard(idx: int): (r: Option<Card>)
    ensures r.Some? <==> 0 <= idx < 66
    ensures 0 <= idx < 55 ==> r == Some(Card(idx % 11 + 3, StandardSuits[idx / 11]))
    ensures 55 <= idx < 66 ==> r == Some(Joker)
  {
    match IndexSuit(idx / 11)
    case None => None
    case Some(suit) => Some(Card(if suit == JokerSuit then JokerRank else idx % 11 + 3, suit))
  }

  /** The five suits of the game are the first five dictionary entries, in order. */
  lemma SuitsInOrder(k: nat)
    requires k < |StandardSuits|
    ensures SuitIndex(StandardSuits[k]) == Some(k) && IndexSuit(k) == Some(StandardSuits[k])
  {
  }

  /** Every game card of rank 3..13 comes back from its index. */
  lemma RoundTrip(suit: Suit, rank: int)
    requires suit in StandardSuits && 3 <= rank <= 13
    ensures CardToIdx(suit, rank).Some? && IdxToCard(CardToIdx(suit, rank).value) == Some(Card(rank, suit))
  {
    var k :| 0 <= k < |StandardSuits| && StandardSuits[k] == suit;
    SuitsInOrder(k);
    var i := 11 * k + rank - 3;
    assert i / 11 == k && i % 11 == rank - 3;
  }

  /** Every index 0..54 names a game card whose index it is: the other direction of the round trip. */
  lemma IndexRoundTrip(idx: int)
    requires 0 <= idx < 55
    ensures IdxToCard(idx).Some? && CardToIdx(IdxToCard(idx).value.suit, IdxToCard(idx).value.rank) == Some(idx)
  {
    SuitsInOrder(idx / 11);
  }

  /**
   * Jokers do not round-trip: the joker's index 52 is also the index of the Stars
   * jack (rank 11), and 52 decodes to that jack.
   */
  lemma JokerCollision()
    ensures CardToIdx(JokerSuit, JokerRank) == Some(52) == CardToIdx("Stars", 11)
    ensures IdxToCard(52) == Some(Card(11, "Stars")) && IdxToCard(52) != Some(Joker)
  {
  }

  // ---------------------------------------------------------------------------
  // encode_state
  // ---------------------------------------------------------------------------

  /** `len(set(full_deck))`: cards are hashed by value, so copies count once. */
  function Distinct(fullDeck: seq<Card>): nat
  {
    |set c | c in fullDeck|
  }

  /**
   * numpy indexing of an array of length n: 0..n-1 as they are, -n..-1 from the
   * end, anything else raises IndexError (None).
   */
  function NpIndex(i: int, n: nat): Option<nat>
  {
    if 0 <= i < n then Some(i) else if -(n as int) <= i < 0 then Some(n + i) else None
  }

  /** The array position a card is counted at, or None when `card_to_idx` or the indexing raises. */
  function Slot(c: Card, n: nat): (r: Option<nat>)
    ensures r.Some? ==> r.value < n
  {
    match CardToIdx(c.suit, c.rank)
    case None => None
    case Some(i) => NpIndex(i, n)
  }

  function Zeros(n: nat): seq<int>
  {
    seq(n, _ => 0)
  }

  /** `encoded_deck` after the counting loop has seen every card of `hand`. */
  function HandCounts(hand: seq<Card>, n: nat): (r: Option<seq<int>>)
    ensures r.Some? ==> |r.value| == n
  {
    if hand == [] then Some(Zeros(n))
    else
      match HandCounts(hand[..|hand| - 1], n)
      case None => None
      case Some(counts) =>
        match Slot(Last(hand), n)
        case None => None
        case Some(p) => Some(counts[p := counts[p] + 1])
  }

  /** `discard_card_encoded`: zeros, with a 1 at the discard's position when there is a discard. */
  function DiscardVector(discard: Option<Card>, n: nat): (r: Option<seq<int>>)
    ensures r.Some? ==> |r.value| == n
  {
    match discard
    case None => Some(Zeros(n))
    case Some(c) =>
      match Slot(c, n)
      case None => None
      case Some(p) => Some(Zeros(n)[p := 1])
  }

  /** What `encode_state` returns: hand counts, discard one-hot, gone-out flag; None when it raises. */
  function Encoded(fullDeck: seq<Card>, hand: seq<Card>, discard: Option<Card>, goneOut: bool): Option<seq<int>>
  {
    var n := Distinct(fullDeck);
    match HandCounts(hand, n)
    case None => None
    case Some(counts) =>
      match DiscardVector(discard, n)
      case None => None
      case Some(d) => Some(counts + d + [if goneOut then 1 else 0])
  }

  /**
   * `encode_state(num_players, full_deck, player_deck, discard_card, gone_out_status)`
   * as the source runs it, filling two arrays; `num_players` is not used.
   */
  method EncodeState(numPlayers: int, fullDeck: seq<Card>, hand: seq<Card>, discard: Option<Card>, goneOut: bool)
    returns (r: Option<seq<int>>)
    ensures r == Encoded(fullDeck, hand, discard, goneOut)
  {
    var deck := set c | c in fullDeck;
    var n := |deck|;
    var encodedDeck := new int[n](_ => 0);
    assert encodedDeck[..] == Zeros(n);
    var i := 0;
    while i < |hand|
      invariant i <= |hand|
      invariant HandCounts(hand[..i], n) == Some(encodedDeck[..])
    {
      assert hand[..i + 1][..i] == hand[..i];
      var slot := Slot(hand[i], n);
      if slot.None? {
        CountsFail(hand, n, i + 1);
        return None;
      }
      encodedDeck[slot.value] := encodedDeck[slot.value] + 1;
      i := i + 1;
    }
    assert hand[..i] == hand;
    var discardEncoded := new int[n](_ => 0);
    if discard.Some? {
      var slot := Slot(discard.value, n);
      if slot.None? {
        return None;
      }
      discardEncoded[slot.value] := 1;
    }
    assert discardEncoded[..] == DiscardVector(discard, n).value;
    r := Some(encodedDeck[..] + discardEncoded[..] + [if goneOut then 1 else 0]);
  }

  /** Once a card has no position, the counting fails for every longer hand too. */
  lemma {:induction false} CountsFail(hand: seq<Card>, n: nat, i: nat)
    requires i <= |hand| && HandCounts(hand[..i], n).None?
    ensures HandCounts(hand, n).None?
    decreases |hand| - i
  {
    if i < |hand| {
      assert hand[..i + 1][..i] == hand[..i];
      CountsFail(hand, n, i + 1);
    } else {
      assert hand[..i] == hand;
    }
  }

  // ---------------------------------------------------------------------------
  // What the encoding holds
  // ---------------------------------------------------------------------------

  /** How many cards of `hand` are counted at position k. */
  function CountAt(hand: seq<Card>, n: nat, k: nat): nat
  {
    if hand == [] then 0
    else CountAt(hand[..|hand| - 1], n, k) + (if Slot(Last(hand), n) == Some(k) then 1 else 0)
  }

  /** Every hand card has a position exactly when the counting succeeds; then entry k counts the cards at k. */
  lemma {:induction false} HandCountsMeaning(hand: seq<Card>, n: nat)
    ensures HandCounts(hand, n).Some? <==> forall c :: c in hand ==> Slot(c, n).Some?
    ensures HandCounts(hand, n).Some? ==>
      forall k :: 0 <= k < n ==> HandCounts(hand, n).value[k] == CountAt(hand, n, k)
    ensures HandCounts(hand, n).Some? ==> Sum(HandCounts(hand, n).value) == |hand|
  {
    if hand == [] {
      SumZeros(n);
    } else {
      var init := hand[..|hand| - 1];
      HandCountsMeaning(init, n);
      assert hand == init + [Last(hand)];
      assert forall c :: c in hand <==> c in init || c == Last(hand);
      if HandCounts(hand, n).Some? {
        var counts := HandCounts(init, n).value;
        var p := Slot(Last(hand), n).value;
        assert HandCounts(hand, n).value == counts[p := counts[p] + 1];
        SumBump(counts, p);
      }
    }
  }

  lemma {:induction false} SumZeros(n: nat)
    ensures Sum(Zeros(n)) == 0
  {
    if n > 0 {
      assert Zeros(n)[..n - 1] == Zeros(n - 1);
      SumZeros(n - 1);
    }
  }

  /** Adding one at a position adds one to the sum. */
  lemma {:induction false} SumBump(xs: seq<int>, p: nat)
    requires p < |xs|
    ensures Sum(xs[p := xs[p] + 1]) == Sum(xs) + 1
  {
    var ys := xs[p := xs[p] + 1];
    if p < |xs| - 1 {
      assert ys[..|ys| - 1] == xs[..|xs| - 1][p := xs[p] + 1];
      SumBump(xs[..|xs| - 1], p);
    } else {
      assert ys[..|ys| - 1] == xs[..|xs| - 1];
    }
  }

  /**
   * A successful encoding has length 2n + 1 for n distinct cards of the full deck;
   * its first n entries count the hand cards per position and add up to the hand
   * size; the next n are all 0 without a discard and a single 1 at the discard's
   * position otherwise; the last entry is the gone-out flag as 0 or 1.
   */
  lemma EncodedLayout(fullDeck: seq<Card>, hand: seq<Card>, discard: Option<Card>, goneOut: bool)
    requires Encoded(fullDeck, hand, discard, goneOut).Some?
    ensures var v := Encoded(fullDeck, hand, discard, goneOut).value; var n := Distinct(fullDeck);
      |v| == 2 * n + 1 && v[2 * n] == (if goneOut then 1 else 0) &&
      (forall k :: 0 <= k < n ==> v[k] == CountAt(hand, n, k)) &&
      Sum(v[..n]) == |hand| &&
      (discard.None? ==> forall k :: n <= k < 2 * n ==> v[k] == 0) &&
      (discard.Some? ==>
         Slot(discard.value, n).Some? &&
         forall k :: n <= k < 2 * n ==> v[k] == if k == n + Slot(discard.value, n).value then 1 else 0)
  {
    var n := Distinct(fullDeck);
    HandCountsMeaning(hand, n);
    var v := Encoded(fullDeck, hand, discard, goneOut).value;
    assert v[..n] == HandCounts(hand, n).value;
  }

  /** The encoding fails exactly when a hand card or the discard has no position. */
  lemma EncodedFails(fullDeck: seq<Card>, hand: seq<Card>, discard: Option<Card>, goneOut: bool)
    ensures var n := Distinct(fullDeck);
      Encoded(fullDeck, hand, discard, goneOut).None? <==>
        (exists c :: c in hand && Slot(c, n).None?) || (discard.Some? && Slot(discard.value, n).None?)
  {
    HandCountsMeaning(hand, Distinct(fullDeck));
  }

  /** With at least 55 distinct cards, every game card of rank 3..13 and the joker are counted at their own index. */
  lemma GameCardsHaveSlots(c: Card, n: nat)
    requires n >= 55
    requires (c.suit in StandardSuits && 3 <= c.rank <= 13) || c == Joker
    ensures CardToIdx(c.suit, c.rank).Some? && 0 <= CardToIdx(c.suit, c.rank).value < 55
    ensures Slot(c, n).Some? && Slot(c, n).value == CardToIdx(c.suit, c.rank).value
  {
    if c != Joker {
      var k :| 0 <= k < |StandardSuits| && StandardSuits[k] == c.suit;
      SuitsInOrder(k);
    }
  }
}
