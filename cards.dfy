/** Cards and the one-time-use deck they are dealt from. */
module Cards {
  import opened Lists

  type Suit = string

  /** A card is a value: its rank and its suit, nothing more. */
  datatype Card = Card(rank: int, suit: Suit)

  const JokerSuit: Suit := "J"
  const JokerRank: int := 50
  const Joker: Card := Card(JokerRank, JokerSuit)

  /**
   * `Card.__eq__`: a card compared with another object. `other` is None when that
   * object is not a card at all.
   */
  function CardEquals(c: Card, other: Option<Card>): (r: bool)
    ensures r <==> other == Some(c)
  {
    other.Some? && c.rank == other.value.rank && c.suit == other.value.suit
  }

  /** `it.product(ranks, suits)`, rank-major: pair i is (ranks[i / |suits|], suits[i % |suits|]). */
  function Product(ranks: seq<int>, suits: seq<Suit>): seq<Card>
  {
    seq(|ranks| * |suits|, i requires 0 <= i < |ranks| * |suits| => ProductAt(ranks, suits, i))
  }

  function ProductAt(ranks: seq<int>, suits: seq<Suit>, i: int): Card
    requires 0 <= i < |ranks| * |suits|
  {
    ProductIndex(|ranks|, |suits|, i);
    Card(ranks[i / |suits|], suits[i % |suits|])
  }

  lemma ProductIndex(n: nat, m: nat, i: int)
    requires 0 <= i < n * m
    ensures m > 0 && 0 <= i / m < n && 0 <= i % m < m
  {
  }

  /** One copy of the deck: every rank/suit pair, then the jokers. */
  function OneCopy(ranks: seq<int>, suits: seq<Suit>, jokers: nat): seq<Card>
  {
    Product(ranks, suits) + seq(jokers, _ => Joker)
  }

  /** The cards a fresh `Deck(ranks, suits, jokers, copies)` holds, in order. */
  function FreshDeck(ranks: seq<int>, suits: seq<Suit>, jokers: nat, copies: nat): seq<Card>
  {
    if copies == 0 then [] else FreshDeck(ranks, suits, jokers, copies - 1) + OneCopy(ranks, suits, jokers)
  }

  /** The product has a pair per rank and suit, each made of a listed rank and a listed suit. */
  lemma ProductShape(ranks: seq<int>, suits: seq<Suit>)
    ensures |Product(ranks, suits)| == |ranks| * |suits|
    ensures forall c :: c in Product(ranks, suits) ==> c.rank in ranks && c.suit in suits
  {
    forall c | c in Product(ranks, suits)
      ensures c.rank in ranks && c.suit in suits
    {
      var i :| 0 <= i < |ranks| * |suits| && Product(ranks, suits)[i] == c;
      ProductIndex(|ranks|, |suits|, i);
    }
  }

  /** A new deck holds copies * (|ranks| * |suits| + jokers) cards. */
  lemma {:induction false} FreshDeckSize(ranks: seq<int>, suits: seq<Suit>, jokers: nat, copies: nat)
    ensures |FreshDeck(ranks, suits, jokers, copies)| == copies * (|ranks| * |suits| + jokers)
  {
    if copies > 0 {
      FreshDeckSize(ranks, suits, jokers, copies - 1);
      ProductShape(ranks, suits);
      assert copies * (|ranks| * |suits| + jokers) == (copies - 1) * (|ranks| * |suits| + jokers) + (|ranks| * |suits| + jokers);
    }
  }

  /**
   * Every card of a new deck is a rank/suit pair of its parameters or a joker; and
   * once there is a copy, every such pair is in it, and the joker when there are jokers.
   */
  lemma {:induction false} FreshDeckMembers(ranks: seq<int>, suits: seq<Suit>, jokers: nat, copies: nat)
    ensures forall c :: c in FreshDeck(ranks, suits, jokers, copies) ==> (c.rank in ranks && c.suit in suits) || c == Joker
    ensures copies > 0 ==> forall r, u :: r in ranks && u in suits ==> Card(r, u) in FreshDeck(ranks, suits, jokers, copies)
    ensures copies > 0 && jokers > 0 ==> Joker in FreshDeck(ranks, suits, jokers, copies)
  {
    if copies > 0 {
      FreshDeckMembers(ranks, suits, jokers, copies - 1);
      ProductShape(ranks, suits);
      var deck := FreshDeck(ranks, suits, jokers, copies);
      var one := OneCopy(ranks, suits, jokers);
      assert deck == FreshDeck(ranks, suits, jokers, copies - 1) + one;
      forall r, u | r in ranks && u in suits
        ensures Card(r, u) in deck
      {
        ProductComplete(ranks, suits, r, u);
        assert Card(r, u) in one;
      }
      if jokers > 0 {
        assert one[|ranks| * |suits|] == Joker;
      }
    }
  }

  /** Every listed rank paired with every listed suit occurs in the product. */
  lemma ProductComplete(ranks: seq<int>, suits: seq<Suit>, r: int, u: Suit)
    requires r in ranks && u in suits
    ensures Card(r, u) in Product(ranks, suits)
  {
    var i :| 0 <= i < |ranks| && ranks[i] == r;
    var j :| 0 <= j < |suits| && suits[j] == u;
    var k := i * |suits| + j;
    PairIndex(|ranks|, |suits|, i, j);
    assert Product(ranks, suits)[k] == Card(r, u);
  }

  /** Row i, column j of an n by m grid is cell i * m + j. */
  lemma PairIndex(n: nat, m: nat, i: nat, j: nat)
    requires i < n && j < m
    ensures i * m + j < n * m && (i * m + j) / m == i && (i * m + j) % m == j
  {
    var k := i * m + j;
    assert (i + 1) * m <= n * m by {
      MulLe(i + 1, n, m);
    }
    var q := k / m;
    var r := k % m;
    assert (q - i) * m == j - r;
    if q > i {
      MulLe(1, q - i, m);
    } else if q < i {
      MulLe(1, i - q, m);
    }
  }

  lemma MulLe(a: nat, b: nat, m: nat)
    requires a <= b
    ensures a * m <= b * m
  {
  }

  /**
   * Where the Python slice `cards[-n:]` starts in a list of length `len`.
   * For n > 0 it is len - n (clamped at 0); for n <= 0 it is -n (clamped at len),
   * so `-0` selects the whole list.
   */
  function TailStart(n: int, len: nat): (s: nat)
    ensures s <= len
    ensures 1 <= n <= len ==> s == len - n
    ensures n == 0 || n > len ==> s == 0
  {
    if n > 0 then (if n <= len then len - n else 0)
    else (if -n <= len then -n else len)
  }

  /** `random.shuffle` is Fisher-Yates: the k-th step swaps position |s|-1-k with swaps[k] <= |s|-1-k. */
  predicate ValidSwaps(len: nat, swaps: seq<nat>)
  {
    (|swaps| < len || |swaps| == 0) &&
    forall k :: 0 <= k < |swaps| ==> swaps[k] <= len - 1 - k
  }

  /** The order a Fisher-Yates shuffle with the given random picks leaves behind. */
  function Shuffled(s: seq<Card>, swaps: seq<nat>): (r: seq<Card>)
    requires ValidSwaps(|s|, swaps)
    ensures |r| == |s|
    decreases |swaps|
  {
    if swaps == [] then s
    else
      var k := |swaps| - 1;
      var before := Shuffled(s, swaps[..k]);
      var i, j := |s| - 1 - k, swaps[k];
      before[i := before[j]][j := before[i]]
  }

  lemma {:induction false} ShuffledIsPermutation(s: seq<Card>, swaps: seq<nat>)
    requires ValidSwaps(|s|, swaps)
    ensures multiset(Shuffled(s, swaps)) == multiset(s)
    decreases |swaps|
  {
    if swaps != [] {
      var k := |swaps| - 1;
      ShuffledIsPermutation(s, swaps[..k]);
    }
  }

  /** A deck dealt from the top: the top card is the last element of `cards`. */
  class Deck {
    var cards: seq<Card>

    /** `Deck(ranks, suits, jokers, copies)`. */
    constructor (ranks: seq<int>, suits: seq<Suit>, jokers: nat, copies: nat)
      ensures cards == FreshDeck(ranks, suits, jokers, copies)
    {
      var built: seq<Card> := [];
      var k := 0;
      while k < copies
        invariant k <= copies
        invariant built == FreshDeck(ranks, suits, jokers, k)
      {
        built := built + Product(ranks, suits);
        built := built + seq(jokers, _ => Joker);
        k := k + 1;
      }
      cards := built;
    }

    /** `shuffle()`, with the picks of the random source passed in. */
    method Shuffle(swaps: seq<nat>)
      requires ValidSwaps(|cards|, swaps) && |swaps| == (if |cards| == 0 then 0 else |cards| - 1)
      modifies this
      ensures cards == Shuffled(old(cards), swaps)
      ensures multiset(cards) == multiset(old(cards))
    {
      ghost var original := cards;
      var k := 0;
      while k < |swaps|
        invariant k <= |swaps| && |cards| == |original|
        invariant cards == Shuffled(original, swaps[..k])
      {
        var i, j := |cards| - 1 - k, swaps[k];
        assert swaps[..k + 1][..k] == swaps[..k];
        cards := cards[i := cards[j]][j := cards[i]];
        k := k + 1;
      }
      assert swaps[..k] == swaps;
      ShuffledIsPermutation(original, swaps);
    }

    /** `size()`. */
    function Size(): (n: nat)
      reads this
      ensures n == |cards|
    {
      |cards|
    }

    /** `get_cards()`: the list itself. */
    function GetCards(): (r: seq<Card>)
      reads this
      ensures r == cards
    {
      cards
    }

    /** `deal(n)`: takes the slice `cards[-n:]`, returns it reversed and deletes it. */
    method Deal(n: int) returns (dealt: seq<Card>)
      modifies this
      ensures var s := TailStart(n, |old(cards)|);
        dealt == Reversed(old(cards)[s..]) && cards == old(cards)[..s]
    {
      var s := TailStart(n, |cards|);
      dealt := Reversed(cards[s..]);
      cards := cards[..s];
    }

    /**
     * `draw()`: `random.choice` picks the card at index `pick`, and `remove` then
     * deletes the first card equal to it. An empty deck yields None.
     */
    method Draw(pick: nat) returns (c: Option<Card>)
      requires |cards| > 0 ==> pick < |cards|
      modifies this
      ensures old(|cards|) == 0 ==> c == None && cards == old(cards)
      ensures old(|cards|) > 0 ==>
        c == Some(old(cards)[pick]) && cards == RemoveFirst(old(cards), old(cards)[pick])
    {
      if |cards| > 0 {
        var card := cards[pick];
        cards := RemoveFirst(cards, card);
        c := Some(card);
      } else {
        c := None;
      }
    }
  }

  /** What `deal(n)` takes and leaves, together, are the deck it started from. */
  lemma DealConserves(s: seq<Card>, n: int)
    ensures var t := TailStart(n, |s|);
      multiset(Reversed(s[t..])) + multiset(s[..t]) == multiset(s)
  {
    var t := TailStart(n, |s|);
    ReversedMultiset(s[t..]);
    assert s == s[..t] + s[t..];
  }

  /** For 1 <= n <= size, `deal(n)` returns the top n cards, topmost first, and keeps the rest in order. */
  lemma DealTakesTop(s: seq<Card>, n: int)
    requires 1 <= n <= |s|
    ensures var t := TailStart(n, |s|);
      |Reversed(s[t..])| == n && s[..t] == s[..|s| - n] &&
      forall i :: 0 <= i < n ==> Reversed(s[t..])[i] == s[|s| - 1 - i]
  {
  }

  /** `deal(0)` and `deal(n)` for n > size both hand out the whole deck and leave it empty. */
  lemma DealAll(s: seq<Card>, n: int)
    requires n == 0 || n > |s|
    ensures var t := TailStart(n, |s|);
      Reversed(s[t..]) == Reversed(s) && s[..t] == []
  {
  }

  /** `draw()` on a non-empty deck removes exactly one copy of the card it returns. */
  lemma DrawRemovesOne(s: seq<Card>, pick: nat)
    requires pick < |s|
    ensures |RemoveFirst(s, s[pick])| == |s| - 1
    ensures multiset(RemoveFirst(s, s[pick])) + multiset{s[pick]} == multiset(s)
  {
  }
}
