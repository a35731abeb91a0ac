/**
 * greedy.py: the greedy player. The draw phase compares the best score reachable
 * with the discard-pile top against the average over every card the deck could
 * still hold; the discard phase drops the card whose removal scores best.
 */
module Greedy {
  import opened Lists
  import opened Cards
  import opened Scoring
  import opened FiveCrowns

  /** `remaining.remove(card)` for each card of `cs` in turn; every one must be there. */
  function RemoveAll(d: seq<Card>, cs: seq<Card>): (r: seq<Card>)
    requires multiset(cs) <= multiset(d)
    ensures multiset(r) == multiset(d) - multiset(cs)
    ensures |r| == |d| - |cs|
    decreases |cs|
  {
    if cs == [] then d
    else
      assert cs == [cs[0]] + cs[1..];
      assert cs[0] in multiset(d);
      RemoveAll(RemoveFirst(d, cs[0]), cs[1..])
  }

  /** The best-discard score of the hand with card c added; nothing is excluded, so there always is one. */
  function DrawScore(hand: seq<Card>, c: Card, epoch: int, goingOut: bool): int
  {
    var r := BestDiscard(hand + [c], epoch, goingOut, None);
    assert Eligible(hand + [c], |hand|, None);
    r.score
  }

  /** `draw_scores` once the loop has looked at every card of `cards`. */
  function DrawScores(hand: seq<Card>, cards: seq<Card>, epoch: int, goingOut: bool): (r: seq<int>)
    ensures |r| == |cards|
  {
    if cards == [] then []
    else DrawScores(hand, cards[..|cards| - 1], epoch, goingOut) + [DrawScore(hand, Last(cards), epoch, goingOut)]
  }

  /** `draw_phase` can run: a pile top to look at, visible cards all in the full deck, and some card left over. */
  predicate CanDecide(g: GameData, hand: seq<Card>)
  {
    g.pile != [] && multiset(g.pile + hand) <= multiset(g.fullDeck) && |g.pile| + |hand| < |g.fullDeck|
  }

  /** The cards the deck may still hold: the full deck less one copy of each visible card. */
  function Unseen(g: GameData, hand: seq<Card>): seq<Card>
    requires CanDecide(g, hand)
  {
    RemoveAll(g.fullDeck, g.pile + hand)
  }

  /** `get_best_discard(hand + [top], game, excluded_discard=top)`. */
  function DiscardOption(g: GameData, hand: seq<Card>): Discard
    requires g.pile != []
  {
    BestDiscard(hand + [Last(g.pile)], g.epoch, g.goOut, Some(Last(g.pile)))
  }

  /**
   * What `draw_phase` answers: take the discard when its score is below the average
   * draw score (compared as score * count < sum, the average's cross-multiplied form);
   * a discard option with no eligible card scores infinity and never wins.
   */
  function DrawDecision(g: GameData, hand: seq<Card>): DrawChoice
    requires CanDecide(g, hand)
  {
    var ds := DiscardOption(g, hand);
    var scores := DrawScores(hand, Unseen(g, hand), g.epoch, g.goOut);
    if ds.Discard? && ds.score * |scores| < Sum(scores) then GetDiscard else DrawCard
  }

  /** `draw_phase(game)` as the source runs it, for the player holding `hand`. */
  method DrawPhase(g: GameData, hand: seq<Card>) returns (choice: DrawChoice)
    requires CanDecide(g, hand)
    ensures choice == DrawDecision(g, hand)
  {
    var newCard := g.pile[|g.pile| - 1];
    var best := GetBestDiscard(hand + [newCard], g.epoch, g.goOut, Some(newCard));
    var remaining := Unvisited(g.fullDeck, g.pile + hand);
    var scores := ScoreDraws(hand, remaining, g.epoch, g.goOut);
    if best.Discard? && best.score * |scores| < Sum(scores) {
      choice := GetDiscard;
    } else {
      choice := DrawCard;
    }
  }

  /** The scoring loop of `draw_phase`: the best-discard score of the hand with each remaining card added. */
  method ScoreDraws(hand: seq<Card>, remaining: seq<Card>, epoch: int, goingOut: bool) returns (scores: seq<int>)
    ensures scores == DrawScores(hand, remaining, epoch, goingOut)
  {
    scores := [];
    var j := 0;
    while j < |remaining|
      invariant j <= |remaining|
      invariant scores == DrawScores(hand, remaining[..j], epoch, goingOut)
    {
      var r := GetBestDiscard(hand + [remaining[j]], epoch, goingOut, None);
      assert Eligible(hand + [remaining[j]], |hand|, None);
      assert remaining[..j + 1][..j] == remaining[..j];
      scores := scores + [r.score];
      j := j + 1;
    }
    assert remaining[..j] == remaining;
  }

  /** The removal loop of `draw_phase`: `remaining_deck.remove(card)` for every visible card. */
  method Unvisited(full: seq<Card>, seen: seq<Card>) returns (remaining: seq<Card>)
    requires multiset(seen) <= multiset(full)
    ensures remaining == RemoveAll(full, seen)
  {
    remaining := full;
    var i := 0;
    while i < |seen|
      invariant i <= |seen|
      invariant multiset(seen[i..]) <= multiset(remaining)
      invariant RemoveAll(remaining, seen[i..]) == RemoveAll(full, seen)
    {
      RemoveAllStep(remaining, seen[i..]);
      assert seen[i..][1..] == seen[i + 1..];
      remaining := RemoveFirst(remaining, seen[i]);
      i := i + 1;
    }
  }

  lemma RemoveAllStep(d: seq<Card>, cs: seq<Card>)
    requires cs != [] && multiset(cs) <= multiset(d)
    ensures cs[0] in d && multiset(cs[1..]) <= multiset(RemoveFirst(d, cs[0]))
    ensures RemoveAll(d, cs) == RemoveAll(RemoveFirst(d, cs[0]), cs[1..])
  {
    assert cs == [cs[0]] + cs[1..];
    assert cs[0] in multiset(d);
  }

  /** `discard_phase(game)`: the card `get_best_discard` picks, None for an empty hand. */
  function DiscardPhase(g: GameData, hand: seq<Card>): (r: Option<Card>)
    ensures r.None? <==> hand == []
    ensures r.Some? ==>
      exists i ::
        0 <= i < |hand| && hand[i] == r.value &&
        (forall j :: 0 <= j < |hand| ==> ScoreWithout(hand, i, g.epoch, g.goOut) <= ScoreWithout(hand, j, g.epoch, g.goOut)) &&
        (forall j :: 0 <= j < i ==> ScoreWithout(hand, i, g.epoch, g.goOut) < ScoreWithout(hand, j, g.epoch, g.goOut))
  {
    var b := BestDiscard(hand, g.epoch, g.goOut, None);
    BestDiscardIsFirstMinimum(hand, g.epoch, g.goOut, None);
    assert hand != [] ==> Eligible(hand, 0, None);
    if b.Discard? then Some(b.card) else None
  }

  // ---------------------------------------------------------------------------
  // What the draw decision means
  // ---------------------------------------------------------------------------

  lemma {:induction false} SumAbove(xs: seq<int>, d: int)
    requires forall j :: 0 <= j < |xs| ==> xs[j] > d
    ensures |xs| > 0 ==> d * |xs| < Sum(xs)
    ensures d * |xs| <= Sum(xs)
  {
    if xs != [] {
      SumAbove(xs[..|xs| - 1], d);
    }
  }

  lemma {:induction false} SumAtMost(xs: seq<int>, d: int)
    requires forall j :: 0 <= j < |xs| ==> xs[j] <= d
    ensures Sum(xs) <= d * |xs|
  {
    if xs != [] {
      SumAtMost(xs[..|xs| - 1], d);
    }
  }

  /**
   * The unseen cards are the full deck less the visible ones, card for card, and
   * there is one draw score per unseen card.
   */
  lemma UnseenCards(g: GameData, hand: seq<Card>)
    requires CanDecide(g, hand)
    ensures multiset(Unseen(g, hand)) == multiset(g.fullDeck) - multiset(g.pile) - multiset(hand)
    ensures |Unseen(g, hand)| == |g.fullDeck| - |g.pile| - |hand| > 0
    ensures |DrawScores(hand, Unseen(g, hand), g.epoch, g.goOut)| == |Unseen(g, hand)|
  {
    assert multiset(g.pile + hand) == multiset(g.pile) + multiset(hand);
  }

  lemma {:induction false} DrawScoresAt(hand: seq<Card>, cards: seq<Card>, epoch: int, goingOut: bool, j: nat)
    requires j < |cards|
    ensures DrawScores(hand, cards, epoch, goingOut)[j] == DrawScore(hand, cards[j], epoch, goingOut)
  {
    if j < |cards| - 1 {
      DrawScoresAt(hand, cards[..|cards| - 1], epoch, goingOut, j);
    }
  }

  /** When every possible draw scores worse than taking the discard, the player takes the discard. */
  lemma TakesDiscardWhenEveryDrawIsWorse(g: GameData, hand: seq<Card>)
    requires CanDecide(g, hand) && DiscardOption(g, hand).Discard?
    requires forall c :: c in Unseen(g, hand) ==> DrawScore(hand, c, g.epoch, g.goOut) > DiscardOption(g, hand).score
    ensures DrawDecision(g, hand) == GetDiscard
  {
    var cards := Unseen(g, hand);
    var scores := DrawScores(hand, cards, g.epoch, g.goOut);
    UnseenCards(g, hand);
    forall j | 0 <= j < |scores|
      ensures scores[j] > DiscardOption(g, hand).score
    {
      DrawScoresAt(hand, cards, g.epoch, g.goOut, j);
    }
    SumAbove(scores, DiscardOption(g, hand).score);
  }

  /**
   * The player takes the discard only if it has an eligible card to throw back and
   * some possible draw would score worse.
   */
  lemma TakesDiscardOnlyIfSomeDrawIsWorse(g: GameData, hand: seq<Card>)
    requires CanDecide(g, hand) && DrawDecision(g, hand) == GetDiscard
    ensures DiscardOption(g, hand).Discard?
    ensures exists c :: c in Unseen(g, hand) && DrawScore(hand, c, g.epoch, g.goOut) > DiscardOption(g, hand).score
  {
    var cards := Unseen(g, hand);
    var scores := DrawScores(hand, cards, g.epoch, g.goOut);
    var d := DiscardOption(g, hand).score;
    if forall c :: c in cards ==> DrawScore(hand, c, g.epoch, g.goOut) <= d {
      forall j | 0 <= j < |scores|
        ensures scores[j] <= d
      {
        DrawScoresAt(hand, cards, g.epoch, g.goOut, j);
      }
      SumAtMost(scores, d);
      assert false;
    }
  }

  /** A drawn card can always be thrown straight back: a draw score is at most the hand's own score. */
  lemma DrawScoreAtMostHand(hand: seq<Card>, c: Card, epoch: int, goingOut: bool)
    ensures DrawScore(hand, c, epoch, goingOut) <= LowestScore(hand, epoch, !goingOut)
  {
    var h := hand + [c];
    assert Eligible(h, |hand|, None);
    BestDiscardIsFirstMinimum(h, epoch, goingOut, None);
    assert h[..|hand|] + h[|hand| + 1..] == hand;
  }
}
