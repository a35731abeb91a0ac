/**
 * Hand scoring for epochs 3 to 5: which subsets are zero-cost melds, the lowest
 * total after removing at most one meld, and the best single discard.
 */
module Scoring {
  import opened Lists
  import opened Cards

  /** A wildcard this round: any joker, or any card whose rank is the epoch. */
  predicate IsWild(c: Card, epoch: int)
  {
    c.suit == JokerSuit || c.rank == epoch
  }

  /**
   * A Python value on either side of `==` in `card_value`: an integer, or the
   * bound method object `card.rank` (not called). Values of different kinds are
   * never equal.
   */
  datatype Operand = IntValue(i: int) | RankMethod(c: Card)

  /**
   * `Game.card_value`. Its test compares the bound method `card.rank` itself with
   * the epoch, so a card is always worth its rank and never 20.
   */
  function CardValue(c: Card, epoch: int): (v: int)
    ensures v == c.rank
  {
    if RankMethod(c) == IntValue(epoch) then 20 else c.rank
  }

  /** `score_card` inside `score_hand`: with `keepWild`, wildcards are worth nothing. */
  function ScoreCard(c: Card, epoch: int, keepWild: bool): (v: int)
    ensures !IsWild(c, epoch) || !keepWild ==> v == c.rank
    ensures IsWild(c, epoch) && keepWild ==> v == 0
  {
    if keepWild && IsWild(c, epoch) then 0 else CardValue(c, epoch)
  }

  // ---------------------------------------------------------------------------
  // Scoring sets
  // ---------------------------------------------------------------------------

  /** `cards_without_wild`: the non-wild cards, in order. */
  function NonWild(s: seq<Card>, epoch: int): (r: seq<Card>)
    ensures |r| <= |s|
    ensures forall c :: c in r <==> c in s && !IsWild(c, epoch)
  {
    if s == [] then []
    else
      var n := |s| - 1;
      assert s == s[..n] + [s[n]];
      var init := NonWild(s[..n], epoch);
      if IsWild(s[n], epoch) then init else init + [s[n]]
  }

  lemma {:induction false} NonWildAppend(a: seq<Card>, b: seq<Card>, epoch: int)
    ensures NonWild(a + b, epoch) == NonWild(a, epoch) + NonWild(b, epoch)
    decreases |b|
  {
    if b == [] {
      assert a + b == a;
    } else {
      var n := |b| - 1;
      assert (a + b)[..|a + b| - 1] == a + b[..n];
      NonWildAppend(a, b[..n], epoch);
    }
  }

  /** `[c.rank() for c in cards]`. */
  function RanksOf(s: seq<Card>): (r: seq<int>)
    ensures |r| == |s| && forall i :: 0 <= i < |s| ==> r[i] == s[i].rank
  {
    seq(|s|, i requires 0 <= i < |s| => s[i].rank)
  }

  function MaxOf(xs: seq<int>): (m: int)
    requires xs != []
    ensures m in xs && forall x :: x in xs ==> x <= m
  {
    if |xs| == 1 then xs[0]
    else
      var rest := MaxOf(xs[1..]);
      assert xs == [xs[0]] + xs[1..];
      if xs[0] >= rest then xs[0] else rest
  }

  function MinOf(xs: seq<int>): (m: int)
    requires xs != []
    ensures m in xs && forall x :: x in xs ==> m <= x
  {
    if |xs| == 1 then xs[0]
    else
      var rest := MinOf(xs[1..]);
      assert xs == [xs[0]] + xs[1..];
      if xs[0] <= rest then xs[0] else rest
  }

  /** The distinct ranks of the non-wild cards of `sub`. */
  function PlainRanks(sub: seq<Card>, epoch: int): set<int>
  {
    set c | c in NonWild(sub, epoch) :: c.rank
  }

  /** The distinct suits of the non-wild cards of `sub`. */
  function PlainSuits(sub: seq<Card>, epoch: int): set<Suit>
  {
    set c | c in NonWild(sub, epoch) :: c.suit
  }

  /**
   * `scoring_set`: a book (the non-wild cards have exactly one rank between them,
   * whatever their suits) or a run (one suit; their ranks span |sub| - 1; and the
   * distinct ranks plus the wildcards make up the whole subset).
   */
  predicate IsScoringSet(sub: seq<Card>, epoch: int)
  {
    var plain := NonWild(sub, epoch);
    var wildCount := |sub| - |plain|;
    var rankSet := PlainRanks(sub, epoch);
    || |rankSet| == 1
    || (&& |PlainSuits(sub, epoch)| == 1
        && plain != []
        && MaxOf(RanksOf(plain)) - MinOf(RanksOf(plain)) == |sub| - 1
        && |rankSet| + wildCount == |sub|)
  }

  /** `scoring_set` as the source runs it: one pass that counts wildcards and collects the rest. */
  method ScoringSet(sub: seq<Card>, epoch: int) returns (isSet: bool)
    ensures isSet == IsScoringSet(sub, epoch)
  {
    var wildCardCount := 0;
    var cardsWithoutWild: seq<Card> := [];
    var i := 0;
    while i < |sub|
      invariant i <= |sub|
      invariant cardsWithoutWild == NonWild(sub[..i], epoch)
      invariant wildCardCount + |cardsWithoutWild| == i
    {
      assert sub[..i + 1][..i] == sub[..i];
      if IsWild(sub[i], epoch) {
        wildCardCount := wildCardCount + 1;
      } else {
        cardsWithoutWild := cardsWithoutWild + [sub[i]];
      }
      i := i + 1;
    }
    assert sub[..i] == sub;
    var rankSet := set c | c in cardsWithoutWild :: c.rank;
    if |rankSet| == 1 {
      return true;
    }
    var suitSet := set c | c in cardsWithoutWild :: c.suit;
    isSet := false;
    if |suitSet| == 1 && cardsWithoutWild != [] {
      var ranks := RanksOf(cardsWithoutWild);
      if MaxOf(ranks) - MinOf(ranks) == |sub| - 1 {
        if |rankSet| + wildCardCount == |sub| {
          isSet := true;
        }
      }
    }
  }

  // ---------------------------------------------------------------------------
  // Subsets: itertools.combinations and the windows 3..epoch
  // ---------------------------------------------------------------------------

  function Prefixed<T>(x: T, cs: seq<seq<T>>): (r: seq<seq<T>>)
    ensures |r| == |cs| && forall i :: 0 <= i < |cs| ==> r[i] == [x] + cs[i]
  {
    seq(|cs|, i requires 0 <= i < |cs| => [x] + cs[i])
  }

  /** `itertools.combinations(s, k)`: every choice of k positions, in lexicographic order. */
  function Combinations<T>(s: seq<T>, k: nat): seq<seq<T>>
  {
    if k == 0 then [[]]
    else if s == [] then []
    else Prefixed(s[0], Combinations(s[1..], k - 1)) + Combinations(s[1..], k)
  }

  /** Each combination has k elements, all drawn from `s` (with multiplicity). */
  lemma {:induction false} CombinationsSound<T>(s: seq<T>, k: nat, i: nat)
    requires i < |Combinations(s, k)|
    ensures |Combinations(s, k)[i]| == k && multiset(Combinations(s, k)[i]) <= multiset(s)
  {
    if k > 0 && s != [] {
      assert s == [s[0]] + s[1..];
      var with := Combinations(s[1..], k - 1);
      if i < |with| {
        CombinationsSound(s[1..], k - 1, i);
      } else {
        CombinationsSound(s[1..], k, i - |with|);
      }
    }
  }

  /** Every sub-multiset of size k of `s` is, up to order, one of the combinations. */
  lemma {:induction false} CombinationsComplete<T>(s: seq<T>, k: nat, m: seq<T>)
    requires |m| == k && multiset(m) <= multiset(s)
    ensures exists i :: 0 <= i < |Combinations(s, k)| && multiset(Combinations(s, k)[i]) == multiset(m)
    decreases |s|, 1
  {
    if k == 0 {
      assert multiset(Combinations(s, k)[0]) == multiset(m);
    } else {
      assert m[0] in multiset(s);
      if s[0] in m {
        CombinationsCompleteWith(s, k, m);
      } else {
        CombinationsCompleteWithout(s, k, m);
      }
    }
  }

  /** The first element is in `m`: it is the head of a combination of the rest taken k - 1 at a time. */
  lemma {:induction false} CombinationsCompleteWith<T>(s: seq<T>, k: nat, m: seq<T>)
    requires |m| == k && multiset(m) <= multiset(s) && k > 0 && s != [] && s[0] in m
    ensures exists i :: 0 <= i < |Combinations(s, k)| && multiset(Combinations(s, k)[i]) == multiset(m)
    decreases |s|, 0
  {
    RemoveHead(s, m);
    CombinationsComplete(s[1..], k - 1, RemoveFirst(m, s[0]));
    WithHeadWitness(s, k, m, s[1..], k - 1);
  }

  lemma RemoveHead<T>(s: seq<T>, m: seq<T>)
    requires multiset(m) <= multiset(s) && s != [] && s[0] in m
    ensures |RemoveFirst(m, s[0])| == |m| - 1 && multiset(RemoveFirst(m, s[0])) <= multiset(s[1..])
  {
    assert s == [s[0]] + s[1..];
  }

  lemma WithHeadWitness<T>(s: seq<T>, k: nat, m: seq<T>, rest: seq<T>, fewer: nat)
    requires k > 0 && s != [] && s[0] in m && rest == s[1..] && fewer == k - 1
    requires exists j :: 0 <= j < |Combinations(rest, fewer)| &&
      multiset(Combinations(rest, fewer)[j]) == multiset(m) - multiset{s[0]}
    ensures exists i :: 0 <= i < |Combinations(s, k)| && multiset(Combinations(s, k)[i]) == multiset(m)
  {
    var with := Combinations(rest, fewer);
    var j :| 0 <= j < |with| && multiset(with[j]) == multiset(m) - multiset{s[0]};
    CombinationsWithHead(s, k, j);
    PutBack(s[0], with[j], m);
    assert multiset(Combinations(s, k)[j]) == multiset(m);
  }

  lemma PutBack<T>(x: T, w: seq<T>, m: seq<T>)
    requires x in m && multiset(w) == multiset(m) - multiset{x}
    ensures multiset([x] + w) == multiset(m)
  {
  }

  /** The first combinations are those that keep the first element. */
  lemma CombinationsWithHead<T>(s: seq<T>, k: nat, j: nat)
    requires k > 0 && s != [] && j < |Combinations(s[1..], k - 1)|
    ensures j < |Combinations(s, k)| && Combinations(s, k)[j] == [s[0]] + Combinations(s[1..], k - 1)[j]
  {
  }

  /** The last combinations are those that leave the first element out. */
  lemma CombinationsWithoutHead<T>(s: seq<T>, k: nat, j: nat)
    requires k > 0 && s != [] && j < |Combinations(s[1..], k)|
    ensures var n := |Combinations(s[1..], k - 1)| + j;
      n < |Combinations(s, k)| && Combinations(s, k)[n] == Combinations(s[1..], k)[j]
  {
  }

  lemma DropHead<T>(s: seq<T>, m: seq<T>)
    requires multiset(m) <= multiset(s) && s != [] && s[0] !in m
    ensures multiset(m) <= multiset(s[1..])
  {
    assert s == [s[0]] + s[1..];
  }

  /** The first element is not in `m`: `m` is a combination of the rest taken k at a time. */
  lemma {:induction false} CombinationsCompleteWithout<T>(s: seq<T>, k: nat, m: seq<T>)
    requires |m| == k && multiset(m) <= multiset(s) && k > 0 && s != [] && s[0] !in m
    ensures exists i :: 0 <= i < |Combinations(s, k)| && multiset(Combinations(s, k)[i]) == multiset(m)
    decreases |s|, 0
  {
    DropHead(s, m);
    CombinationsComplete(s[1..], k, m);
    WithoutHeadWitness(s, k, m);
  }

  lemma WithoutHeadWitness<T>(s: seq<T>, k: nat, m: seq<T>)
    requires k > 0 && s != []
    requires exists j :: 0 <= j < |Combinations(s[1..], k)| && multiset(Combinations(s[1..], k)[j]) == multiset(m)
    ensures exists i :: 0 <= i < |Combinations(s, k)| && multiset(Combinations(s, k)[i]) == multiset(m)
  {
    var without := Combinations(s[1..], k);
    var j :| 0 <= j < |without| && multiset(without[j]) == multiset(m);
    CombinationsWithoutHead(s, k, j);
    var n := |Combinations(s[1..], k - 1)| + j;
    assert multiset(Combinations(s, k)[n]) == multiset(m);
  }

  // ---------------------------------------------------------------------------
  // The lowest score of a hand
  // ---------------------------------------------------------------------------

  /** What one card contributes to `Remainder`. */
  function Points(c: Card, meld: seq<Card>, epoch: int, keepWild: bool): int
  {
    if c in meld then 0 else ScoreCard(c, epoch, keepWild)
  }

  /**
   * `sum(score_card(c) for c in hand if c not in meld)`: membership is equality, so
   * every hand card equal to some member of `meld` is dropped. With `meld == []`
   * it is the no-meld baseline.
   */
  function Remainder(hand: seq<Card>, meld: seq<Card>, epoch: int, keepWild: bool): int
  {
    if hand == [] then 0
    else Points(hand[0], meld, epoch, keepWild) + Remainder(hand[1..], meld, epoch, keepWild)
  }

  /** The running minimum `lowest_score` after the first `upto` candidate subsets. */
  function Lowest(hand: seq<Card>, cands: seq<seq<Card>>, upto: nat, epoch: int, keepWild: bool, start: int): (r: int)
    requires upto <= |cands|
    ensures r <= start
  {
    if upto == 0 then start
    else
      var before := Lowest(hand, cands, upto - 1, epoch, keepWild, start);
      var sub := cands[upto - 1];
      if IsScoringSet(sub, epoch) && Remainder(hand, sub, epoch, keepWild) < before
      then Remainder(hand, sub, epoch, keepWild)
      else before
  }

  /** No scoring candidate among the first `upto` leaves less than the running minimum. */
  lemma {:induction false} LowestBelow(hand: seq<Card>, cands: seq<seq<Card>>, upto: nat, epoch: int, keepWild: bool, start: int, i: nat)
    requires i < upto <= |cands| && IsScoringSet(cands[i], epoch)
    ensures Lowest(hand, cands, upto, epoch, keepWild, start) <= Remainder(hand, cands[i], epoch, keepWild)
  {
    if i < upto - 1 {
      LowestBelow(hand, cands, upto - 1, epoch, keepWild, start, i);
    }
  }

  /** One more candidate: it replaces the running minimum only when it is a scoring set and strictly lower. */
  lemma LowestStep(hand: seq<Card>, cands: seq<seq<Card>>, upto: nat, epoch: int, keepWild: bool, start: int)
    requires upto < |cands|
    ensures var before := Lowest(hand, cands, upto, epoch, keepWild, start);
      var score := Remainder(hand, cands[upto], epoch, keepWild);
      Lowest(hand, cands, upto + 1, epoch, keepWild, start) ==
        if IsScoringSet(cands[upto], epoch) && score < before then score else before
  {
  }

  lemma {:induction false} LowestAchieved(hand: seq<Card>, cands: seq<seq<Card>>, upto: nat, epoch: int, keepWild: bool, start: int)
    requires upto <= |cands|
    ensures var r := Lowest(hand, cands, upto, epoch, keepWild, start);
      r == start ||
      exists i :: 0 <= i < upto && IsScoringSet(cands[i], epoch) && r == Remainder(hand, cands[i], epoch, keepWild)
  {
    if upto > 0 {
      LowestAchieved(hand, cands, upto - 1, epoch, keepWild, start);
    }
  }

  /**
   * `lowest_score` once the windows 3..w have been tried, each window's combinations
   * in itertools order; below 3 it is the no-meld baseline.
   */
  function LowestUpTo(hand: seq<Card>, w: int, epoch: int, keepWild: bool): (r: int)
    ensures r <= Remainder(hand, [], epoch, keepWild)
    decreases w
  {
    if w < 3 then Remainder(hand, [], epoch, keepWild)
    else
      var subsets := Combinations(hand, w);
      Lowest(hand, subsets, |subsets|, epoch, keepWild, LowestUpTo(hand, w - 1, epoch, keepWild))
  }

  /** No scoring combination of the windows tried so far leaves less than `lowest_score`. */
  lemma LowestUpToBelow(hand: seq<Card>, w: int, epoch: int, keepWild: bool, v: int, i: nat)
    requires 3 <= v <= w && i < |Combinations(hand, v)| && IsScoringSet(Combinations(hand, v)[i], epoch)
    ensures LowestUpTo(hand, w, epoch, keepWild) <= Remainder(hand, Combinations(hand, v)[i], epoch, keepWild)
  {
    LowestUpToLast(hand, v, epoch, keepWild, i);
    LowestUpToMonotone(hand, v, w, epoch, keepWild);
  }

  /** Trying more windows never raises `lowest_score`. */
  lemma {:induction false} LowestUpToMonotone(hand: seq<Card>, v: int, w: int, epoch: int, keepWild: bool)
    requires v <= w
    ensures LowestUpTo(hand, w, epoch, keepWild) <= LowestUpTo(hand, v, epoch, keepWild)
    decreases w - v
  {
    if v < w {
      LowestUpToMonotone(hand, v, w - 1, epoch, keepWild);
      LowestUpToShrinks(hand, w, epoch, keepWild);
    }
  }

  /** Trying one more window never raises `lowest_score`. */
  lemma LowestUpToShrinks(hand: seq<Card>, w: int, epoch: int, keepWild: bool)
    ensures LowestUpTo(hand, w, epoch, keepWild) <= LowestUpTo(hand, w - 1, epoch, keepWild)
  {
  }

  lemma LowestUpToLast(hand: seq<Card>, w: int, epoch: int, keepWild: bool, i: nat)
    requires 3 <= w && i < |Combinations(hand, w)| && IsScoringSet(Combinations(hand, w)[i], epoch)
    ensures LowestUpTo(hand, w, epoch, keepWild) <= Remainder(hand, Combinations(hand, w)[i], epoch, keepWild)
  {
    var subsets := Combinations(hand, w);
    LowestBelow(hand, subsets, |subsets|, epoch, keepWild, LowestUpTo(hand, w - 1, epoch, keepWild), i);
  }

  lemma {:induction false} LowestUpToAchieved(hand: seq<Card>, w: int, epoch: int, keepWild: bool)
    ensures var r := LowestUpTo(hand, w, epoch, keepWild);
      r == Remainder(hand, [], epoch, keepWild) ||
      exists sub :: 3 <= |sub| <= w && multiset(sub) <= multiset(hand) && IsScoringSet(sub, epoch) &&
        r == Remainder(hand, sub, epoch, keepWild)
    decreases w
  {
    if w >= 3 {
      var subsets := Combinations(hand, w);
      var before := LowestUpTo(hand, w - 1, epoch, keepWild);
      var r := LowestUpTo(hand, w, epoch, keepWild);
      assert r == Lowest(hand, subsets, |subsets|, epoch, keepWild, before);
      LowestAchieved(hand, subsets, |subsets|, epoch, keepWild, before);
      if r == before {
        LowestUpToAchieved(hand, w - 1, epoch, keepWild);
      } else {
        var i :| 0 <= i < |subsets| && IsScoringSet(subsets[i], epoch) && r == Remainder(hand, subsets[i], epoch, keepWild);
        CombinationsSound(hand, w, i);
        var sub := subsets[i];
        assert 3 <= |sub| <= w && multiset(sub) <= multiset(hand) && IsScoringSet(sub, epoch) &&
          r == Remainder(hand, sub, epoch, keepWild);
      }
    }
  }

  /** What `score_hand(hand, game, keep_wild)` returns: the windows run from 3 to the epoch. */
  function LowestScore(hand: seq<Card>, epoch: int, keepWild: bool): int
  {
    LowestUpTo(hand, epoch, epoch, keepWild)
  }

  /** `score_hand` as the source runs it: nested loops over window sizes and combinations. */
  method ScoreHand(hand: seq<Card>, epoch: int, keepWild: bool) returns (lowestScore: int)
    ensures lowestScore == LowestScore(hand, epoch, keepWild)
  {
    lowestScore := Remainder(hand, [], epoch, keepWild);
    var windowSize := 3;
    while windowSize <= epoch
      invariant 3 <= windowSize <= if epoch < 3 then 3 else epoch + 1
      invariant lowestScore == LowestUpTo(hand, windowSize - 1, epoch, keepWild)
    {
      var subsets := Combinations(hand, windowSize);
      ghost var before := lowestScore;
      var j := 0;
      while j < |subsets|
        invariant j <= |subsets|
        invariant lowestScore == Lowest(hand, subsets, j, epoch, keepWild, before)
      {
        var subset := subsets[j];
        LowestStep(hand, subsets, j, epoch, keepWild, before);
        var isSet := ScoringSet(subset, epoch);
        if isSet {
          var score := Remainder(hand, subset, epoch, keepWild);
          if score < lowestScore {
            lowestScore := score;
          }
        }
        j := j + 1;
      }
      assert lowestScore == LowestUpTo(hand, windowSize, epoch, keepWild);
      windowSize := windowSize + 1;
    }
  }

  // ---------------------------------------------------------------------------
  // What the lowest score means
  // ---------------------------------------------------------------------------

  /** A meld that `score_hand` may remove: 3..epoch cards of the hand forming a scoring set. */
  ghost predicate IsMeld(hand: seq<Card>, epoch: int, sub: seq<Card>)
  {
    3 <= |sub| <= epoch && multiset(sub) <= multiset(hand) && IsScoringSet(sub, epoch)
  }

  lemma {:induction false} NonWildMultiset(s: seq<Card>, epoch: int, x: Card)
    ensures multiset(NonWild(s, epoch))[x] == if IsWild(x, epoch) then 0 else multiset(s)[x]
  {
    if s != [] {
      var n := |s| - 1;
      assert s == s[..n] + [s[n]];
      NonWildMultiset(s[..n], epoch, x);
    }
  }

  lemma MaxOfSameMembers(xs: seq<int>, ys: seq<int>)
    requires xs != [] && ys != [] && forall x :: x in xs <==> x in ys
    ensures MaxOf(xs) == MaxOf(ys) && MinOf(xs) == MinOf(ys)
  {
  }

  lemma RanksOfMembers(p: seq<Card>, r: int)
    ensures r in RanksOf(p) <==> exists c :: c in p && c.rank == r
  {
    if r in RanksOf(p) {
      var i :| 0 <= i < |p| && RanksOf(p)[i] == r;
      assert p[i] in p;
    }
  }

  /** `scoring_set` depends only on which cards the subset holds, not on their order. */
  lemma ScoringSetPermutation(a: seq<Card>, b: seq<Card>, epoch: int)
    requires multiset(a) == multiset(b)
    ensures IsScoringSet(a, epoch) == IsScoringSet(b, epoch)
  {
    var pa, pb := NonWild(a, epoch), NonWild(b, epoch);
    forall x ensures multiset(pa)[x] == multiset(pb)[x] {
      NonWildMultiset(a, epoch, x);
      NonWildMultiset(b, epoch, x);
    }
    assert multiset(pa) == multiset(pb);
    assert |pa| == |multiset(pa)| == |multiset(pb)| == |pb|;
    assert |a| == |multiset(a)| == |multiset(b)| == |b|;
    assert forall c :: c in pa <==> c in pb by {
      forall c ensures c in pa <==> c in pb {
        assert c in pa <==> c in multiset(pa);
        assert c in pb <==> c in multiset(pb);
      }
    }
    assert PlainRanks(a, epoch) == PlainRanks(b, epoch);
    assert PlainSuits(a, epoch) == PlainSuits(b, epoch);
    if pa != [] {
      forall r ensures r in RanksOf(pa) <==> r in RanksOf(pb) {
        RanksOfMembers(pa, r);
        RanksOfMembers(pb, r);
      }
      MaxOfSameMembers(RanksOf(pa), RanksOf(pb));
    }
  }

  lemma {:induction false} RemainderSameMembers(hand: seq<Card>, m1: seq<Card>, m2: seq<Card>, epoch: int, keepWild: bool)
    requires forall c :: c in m1 <==> c in m2
    ensures Remainder(hand, m1, epoch, keepWild) == Remainder(hand, m2, epoch, keepWild)
  {
    if hand != [] {
      RemainderSameMembers(hand[1..], m1, m2, epoch, keepWild);
    }
  }

  lemma {:induction false} RemainderAppend(p: seq<Card>, q: seq<Card>, meld: seq<Card>, epoch: int, keepWild: bool)
    ensures Remainder(p + q, meld, epoch, keepWild) == Remainder(p, meld, epoch, keepWild) + Remainder(q, meld, epoch, keepWild)
  {
    if p == [] {
      assert p + q == q;
    } else {
      assert (p + q)[1..] == p[1..] + q;
      RemainderAppend(p[1..], q, meld, epoch, keepWild);
    }
  }

  lemma RemainderRemove(b: seq<Card>, x: Card, meld: seq<Card>, epoch: int, keepWild: bool)
    requires x in b
    ensures Remainder(b, meld, epoch, keepWild) == Points(x, meld, epoch, keepWild) + Remainder(RemoveFirst(b, x), meld, epoch, keepWild)
  {
    var j := IndexOf(b, x);
    var left, right := b[..j], b[j + 1..];
    calc {
      Remainder(b, meld, epoch, keepWild);
      { assert b == left + ([x] + right);
        RemainderAppend(left, [x] + right, meld, epoch, keepWild); }
      Remainder(left, meld, epoch, keepWild) + Remainder([x] + right, meld, epoch, keepWild);
      { assert ([x] + right)[1..] == right; }
      Remainder(left, meld, epoch, keepWild) + Points(x, meld, epoch, keepWild) + Remainder(right, meld, epoch, keepWild);
      { RemainderAppend(left, right, meld, epoch, keepWild); }
      Points(x, meld, epoch, keepWild) + Remainder(left + right, meld, epoch, keepWild);
    }
  }

  /** The point total of what is left depends only on the multiset of the hand. */
  lemma {:induction false} RemainderPermutation(a: seq<Card>, b: seq<Card>, meld: seq<Card>, epoch: int, keepWild: bool)
    requires multiset(a) == multiset(b)
    ensures Remainder(a, meld, epoch, keepWild) == Remainder(b, meld, epoch, keepWild)
    decreases |a|
  {
    if a == [] {
      assert |b| == |multiset(b)| == 0;
    } else {
      var x := a[0];
      assert a == [x] + a[1..];
      assert x in multiset(a);
      RemainderRemove(b, x, meld, epoch, keepWild);
      RemainderPermutation(a[1..], RemoveFirst(b, x), meld, epoch, keepWild);
    }
  }

  /**
   * `score_hand` is the smallest of the baseline and the totals left after removing
   * one meld of 3..epoch cards, and it is one of those values.
   */
  lemma ScoreHandIsMinimum(hand: seq<Card>, epoch: int, keepWild: bool)
    ensures forall sub :: IsMeld(hand, epoch, sub) ==>
      LowestScore(hand, epoch, keepWild) <= Remainder(hand, sub, epoch, keepWild)
    ensures LowestScore(hand, epoch, keepWild) == Remainder(hand, [], epoch, keepWild) ||
      exists sub :: IsMeld(hand, epoch, sub) && LowestScore(hand, epoch, keepWild) == Remainder(hand, sub, epoch, keepWild)
  {
    var r := LowestScore(hand, epoch, keepWild);
    forall sub | IsMeld(hand, epoch, sub)
      ensures r <= Remainder(hand, sub, epoch, keepWild)
    {
      var subsets := Combinations(hand, |sub|);
      CombinationsComplete(hand, |sub|, sub);
      var i :| 0 <= i < |subsets| && multiset(subsets[i]) == multiset(sub);
      ScoringSetPermutation(subsets[i], sub, epoch);
      LowestUpToBelow(hand, epoch, epoch, keepWild, |sub|, i);
      forall c ensures c in subsets[i] <==> c in sub {
        assert c in subsets[i] <==> c in multiset(subsets[i]);
        assert c in sub <==> c in multiset(sub);
      }
      RemainderSameMembers(hand, subsets[i], sub, epoch, keepWild);
    }
    LowestUpToAchieved(hand, epoch, epoch, keepWild);
  }

  /** Reordering the hand never changes its score. */
  lemma ScoreHandPermutation(a: seq<Card>, b: seq<Card>, epoch: int, keepWild: bool)
    requires multiset(a) == multiset(b)
    ensures LowestScore(a, epoch, keepWild) == LowestScore(b, epoch, keepWild)
  {
    ScoreHandBelow(a, b, epoch, keepWild);
    ScoreHandBelow(b, a, epoch, keepWild);
  }

  lemma ScoreHandBelow(a: seq<Card>, b: seq<Card>, epoch: int, keepWild: bool)
    requires multiset(a) == multiset(b)
    ensures LowestScore(a, epoch, keepWild) <= LowestScore(b, epoch, keepWild)
  {
    ScoreHandIsMinimum(a, epoch, keepWild);
    ScoreHandIsMinimum(b, epoch, keepWild);
    var rb := LowestScore(b, epoch, keepWild);
    if rb == Remainder(b, [], epoch, keepWild) {
      RemainderPermutation(a, b, [], epoch, keepWild);
    } else {
      var sub :| IsMeld(b, epoch, sub) && rb == Remainder(b, sub, epoch, keepWild);
      assert IsMeld(a, epoch, sub);
      RemainderPermutation(a, b, sub, epoch, keepWild);
    }
  }

  lemma {:induction false} RemainderNonNegative(hand: seq<Card>, meld: seq<Card>, epoch: int, keepWild: bool)
    requires forall c :: c in hand ==> c.rank >= 0
    ensures Remainder(hand, meld, epoch, keepWild) >= 0
  {
    if hand != [] {
      assert hand[0] in hand;
      RemainderNonNegative(hand[1..], meld, epoch, keepWild);
    }
  }

  /** With non-negative ranks the score is never negative. */
  lemma ScoreHandNonNegative(hand: seq<Card>, epoch: int, keepWild: bool)
    requires forall c :: c in hand ==> c.rank >= 0
    ensures LowestScore(hand, epoch, keepWild) >= 0
  {
    ScoreHandIsMinimum(hand, epoch, keepWild);
    if LowestScore(hand, epoch, keepWild) == Remainder(hand, [], epoch, keepWild) {
      RemainderNonNegative(hand, [], epoch, keepWild);
    } else {
      var sub :| IsMeld(hand, epoch, sub) && LowestScore(hand, epoch, keepWild) == Remainder(hand, sub, epoch, keepWild);
      RemainderNonNegative(hand, sub, epoch, keepWild);
    }
  }

  lemma {:induction false} RemainderKeepWildBelow(hand: seq<Card>, meld: seq<Card>, epoch: int)
    requires forall c :: c in hand ==> c.rank >= 0
    ensures Remainder(hand, meld, epoch, true) <= Remainder(hand, meld, epoch, false)
  {
    if hand != [] {
      assert hand[0] in hand;
      RemainderKeepWildBelow(hand[1..], meld, epoch);
    }
  }

  /** Scoring wildcards as 0 (`keep_wild`) never raises the score. */
  lemma ScoreHandKeepWild(hand: seq<Card>, epoch: int)
    requires forall c :: c in hand ==> c.rank >= 0
    ensures LowestScore(hand, epoch, true) <= LowestScore(hand, epoch, false)
  {
    ScoreHandIsMinimum(hand, epoch, true);
    ScoreHandIsMinimum(hand, epoch, false);
    var r := LowestScore(hand, epoch, false);
    if r == Remainder(hand, [], epoch, false) {
      RemainderKeepWildBelow(hand, [], epoch);
    } else {
      var sub :| IsMeld(hand, epoch, sub) && r == Remainder(hand, sub, epoch, false);
      RemainderKeepWildBelow(hand, sub, epoch);
    }
  }

  // ---------------------------------------------------------------------------
  // Books, runs and wildcards
  // ---------------------------------------------------------------------------

  /** A subset made only of wildcards is not a scoring set: both its rank set and its suit set are empty. */
  lemma AllWildIsNotScoringSet(sub: seq<Card>, epoch: int)
    requires forall c :: c in sub ==> IsWild(c, epoch)
    ensures !IsScoringSet(sub, epoch)
  {
    assert PlainRanks(sub, epoch) == {};
    assert PlainSuits(sub, epoch) == {};
  }

  /** A book: non-wild cards that all share one rank make a scoring set, whatever their suits. */
  lemma BookIsScoringSet(sub: seq<Card>, epoch: int, c0: Card)
    requires c0 in sub && !IsWild(c0, epoch)
    requires forall c :: c in sub && !IsWild(c, epoch) ==> c.rank == c0.rank
    ensures IsScoringSet(sub, epoch)
  {
    assert PlainRanks(sub, epoch) == {c0.rank};
  }

  /**
   * A run: the non-wild cards share one suit, no two of them share a rank, and their
   * ranks lie in [lo, lo + |sub| - 1] with both ends present; the wildcards fill the
   * remaining places. Such a subset is a scoring set.
   */
  lemma RunIsScoringSet(sub: seq<Card>, epoch: int, lo: int)
    requires forall c, d :: c in sub && d in sub && !IsWild(c, epoch) && !IsWild(d, epoch) ==> c.suit == d.suit
    requires forall i, j :: 0 <= i < j < |sub| && !IsWild(sub[i], epoch) && !IsWild(sub[j], epoch) ==> sub[i].rank != sub[j].rank
    requires forall c :: c in sub && !IsWild(c, epoch) ==> lo <= c.rank <= lo + |sub| - 1
    requires exists c :: c in sub && !IsWild(c, epoch) && c.rank == lo
    requires exists c :: c in sub && !IsWild(c, epoch) && c.rank == lo + |sub| - 1
    ensures IsScoringSet(sub, epoch)
  {
    var plain := NonWild(sub, epoch);
    var low :| low in sub && !IsWild(low, epoch) && low.rank == lo;
    var high :| high in sub && !IsWild(high, epoch) && high.rank == lo + |sub| - 1;
    var ranks := RanksOf(plain);
    assert low in plain && high in plain;
    RanksOfMembers(plain, lo);
    RanksOfMembers(plain, lo + |sub| - 1);
    RanksOfMembers(plain, MaxOf(ranks));
    RanksOfMembers(plain, MinOf(ranks));
    assert MaxOf(ranks) == lo + |sub| - 1 && MinOf(ranks) == lo;
    DistinctRanksCount(sub, epoch);
    RunShape(sub, epoch, low);
  }

  /** Non-wild cards at distinct places with distinct ranks give as many ranks as cards. */
  lemma {:induction false} DistinctRanksCount(sub: seq<Card>, epoch: int)
    requires forall i, j :: 0 <= i < j < |sub| && !IsWild(sub[i], epoch) && !IsWild(sub[j], epoch) ==> sub[i].rank != sub[j].rank
    ensures |PlainRanks(sub, epoch)| == |NonWild(sub, epoch)|
  {
    if sub != [] {
      var n := |sub| - 1;
      var init := sub[..n];
      assert sub == init + [sub[n]];
      DistinctRanksCount(init, epoch);
      if IsWild(sub[n], epoch) {
        assert PlainRanks(sub, epoch) == PlainRanks(init, epoch);
      } else {
        assert NonWild(sub, epoch) == NonWild(init, epoch) + [sub[n]];
        assert PlainRanks(sub, epoch) == PlainRanks(init, epoch) + {sub[n].rank};
        assert sub[n].rank !in PlainRanks(init, epoch) by {
          forall c | c in NonWild(init, epoch)
            ensures c.rank != sub[n].rank
          {
            var i :| 0 <= i < n && init[i] == c;
          }
        }
      }
    }
  }

  /** The run test once its span and count are known: all non-wild cards share `c0`'s suit. */
  lemma RunShape(sub: seq<Card>, epoch: int, c0: Card)
    requires c0 in sub && !IsWild(c0, epoch)
    requires forall c :: c in sub && !IsWild(c, epoch) ==> c.suit == c0.suit
    requires var plain := NonWild(sub, epoch);
      MaxOf(RanksOf(plain)) - MinOf(RanksOf(plain)) == |sub| - 1 &&
      |PlainRanks(sub, epoch)| + (|sub| - |plain|) == |sub|
    ensures IsScoringSet(sub, epoch)
  {
    assert PlainSuits(sub, epoch) == {c0.suit};
  }

  /** Removing a meld with the whole hand in it leaves nothing: such a hand scores 0. */
  lemma WholeHandMeldScoresZero(hand: seq<Card>, epoch: int, keepWild: bool)
    requires 3 <= |hand| <= epoch && IsScoringSet(hand, epoch)
    requires forall c :: c in hand ==> c.rank >= 0
    ensures LowestScore(hand, epoch, keepWild) == 0
  {
    ScoreHandIsMinimum(hand, epoch, keepWild);
    assert IsMeld(hand, epoch, hand);
    RemainderAllMembers(hand, hand, epoch, keepWild);
    ScoreHandNonNegative(hand, epoch, keepWild);
  }

  lemma {:induction false} RemainderAllMembers(hand: seq<Card>, meld: seq<Card>, epoch: int, keepWild: bool)
    requires forall c :: c in hand ==> c in meld
    ensures Remainder(hand, meld, epoch, keepWild) == 0
  {
    if hand != [] {
      assert hand[0] in hand;
      RemainderAllMembers(hand[1..], meld, epoch, keepWild);
    }
  }

  lemma NonWildOfThree(a: Card, b: Card, c: Card, epoch: int)
    ensures NonWild([a, b, c], epoch) ==
      (if IsWild(a, epoch) then [] else [a]) + (if IsWild(b, epoch) then [] else [b]) + (if IsWild(c, epoch) then [] else [c])
  {
    assert [a, b, c][..2] == [a, b];
    NonWildOfTwo(a, b, epoch);
  }

  lemma NonWildOfTwo(a: Card, b: Card, epoch: int)
    ensures NonWild([a, b], epoch) == (if IsWild(a, epoch) then [] else [a]) + (if IsWild(b, epoch) then [] else [b])
  {
    assert [a, b][..1] == [a];
    NonWildOne(a, epoch);
  }

  /** The span of ascending ranks is last minus first. */
  lemma SpanOfSorted(xs: seq<int>)
    requires xs != [] && forall i, j :: 0 <= i < j < |xs| ==> xs[i] < xs[j]
    ensures MaxOf(xs) == xs[|xs| - 1] && MinOf(xs) == xs[0]
  {
    assert xs[0] in xs && xs[|xs| - 1] in xs;
  }

  lemma NonWildOne(x: Card, epoch: int)
    ensures NonWild([x], epoch) == if IsWild(x, epoch) then [] else [x]
  {
    assert [x][..0] == [];
  }

  /** Three non-wild cards of one suit with consecutive ranks are a run. */
  lemma ConsecutiveRun(a: Card, b: Card, c: Card, epoch: int)
    requires !IsWild(a, epoch) && !IsWild(b, epoch) && !IsWild(c, epoch)
    requires a.suit == b.suit == c.suit && b.rank == a.rank + 1 && c.rank == a.rank + 2
    ensures IsScoringSet([a, b, c], epoch)
  {
    NonWildOfThree(a, b, c, epoch);
    ThreeShape(a, b, c, epoch);
    SameSuitThree(a, b, c, epoch);
    RunShape([a, b, c], epoch, a);
  }

  lemma ThreeShape(a: Card, b: Card, c: Card, epoch: int)
    requires NonWild([a, b, c], epoch) == [a, b, c] && a.rank < b.rank < c.rank == a.rank + 2
    ensures var plain := NonWild([a, b, c], epoch);
      MaxOf(RanksOf(plain)) - MinOf(RanksOf(plain)) == |[a, b, c]| - 1 &&
      |PlainRanks([a, b, c], epoch)| + (|[a, b, c]| - |plain|) == |[a, b, c]|
  {
    ThreeRanks(a, b, c, epoch);
    SpanOfThree(a, b, c);
  }

  lemma SameSuitThree(a: Card, b: Card, c: Card, epoch: int)
    requires a.suit == b.suit == c.suit
    ensures forall x :: x in [a, b, c] && !IsWild(x, epoch) ==> x.suit == a.suit
  {
    forall x | x in [a, b, c]
      ensures x.suit == a.suit
    {
      assert x == a || x == b || x == c;
    }
  }

  lemma SpanOfThree(a: Card, b: Card, c: Card)
    requires a.rank < b.rank < c.rank
    ensures MaxOf(RanksOf([a, b, c])) - MinOf(RanksOf([a, b, c])) == c.rank - a.rank
  {
    assert RanksOf([a, b, c]) == [a.rank, b.rank, c.rank];
    SpanOfSorted([a.rank, b.rank, c.rank]);
  }

  lemma ThreeRanks(a: Card, b: Card, c: Card, epoch: int)
    requires NonWild([a, b, c], epoch) == [a, b, c] && a.rank < b.rank < c.rank
    ensures |PlainRanks([a, b, c], epoch)| == 3
  {
    assert PlainRanks([a, b, c], epoch) == {a.rank, b.rank, c.rank};
  }

  /** A wildcard fills the gap between two cards of one suit whose ranks differ by 2. */
  lemma WildInGapRun(w: Card, a: Card, c: Card, epoch: int)
    requires IsWild(w, epoch) && !IsWild(a, epoch) && !IsWild(c, epoch)
    requires a.suit == c.suit && c.rank == a.rank + 2
    ensures IsScoringSet([w, a, c], epoch)
  {
    var sub := [w, a, c];
    NonWildOfThree(w, a, c, epoch);
    assert NonWild(sub, epoch) == [a, c];
    var ranks := RanksOf([a, c]);
    assert ranks == [a.rank, c.rank];
    assert a.rank in ranks && c.rank in ranks;
    assert MaxOf(ranks) == c.rank && MinOf(ranks) == a.rank;
    assert PlainSuits(sub, epoch) == {a.suit};
    assert PlainRanks(sub, epoch) == {a.rank, c.rank};
    assert |PlainRanks(sub, epoch)| == 2;
  }

  /**
   * The span test counts the wildcard inside the span: a wildcard next to two
   * consecutive cards of one suit does not make a run (nor a book).
   */
  lemma WildAtRunEndIsNotScoringSet(w: Card, a: Card, b: Card, epoch: int)
    requires IsWild(w, epoch) && !IsWild(a, epoch) && !IsWild(b, epoch)
    requires a.suit == b.suit && b.rank == a.rank + 1
    ensures !IsScoringSet([w, a, b], epoch)
  {
    var sub := [w, a, b];
    NonWildOfThree(w, a, b, epoch);
    assert NonWild(sub, epoch) == [a, b];
    var ranks := RanksOf([a, b]);
    assert ranks == [a.rank, b.rank];
    assert a.rank in ranks && b.rank in ranks;
    assert MaxOf(ranks) == b.rank && MinOf(ranks) == a.rank;
    assert PlainRanks(sub, epoch) == {a.rank, b.rank};
    assert |PlainRanks(sub, epoch)| == 2;
  }

  /** Three clubs 6, 7, 8 in round 3 are a run and go out. */
  lemma RunOfThreeGoesOut()
    ensures LowestScore([Card(6, "Clubs"), Card(7, "Clubs"), Card(8, "Clubs")], 3, false) == 0
  {
    var hand := [Card(6, "Clubs"), Card(7, "Clubs"), Card(8, "Clubs")];
    ConsecutiveRun(hand[0], hand[1], hand[2], 3);
    WholeHandMeldScoresZero(hand, 3, false);
  }

  /** In round 3 a 3 is wild and fills the gap in 4, _, 6. */
  lemma WildFillsGap()
    ensures LowestScore([Card(3, "Hearts"), Card(4, "Clubs"), Card(6, "Clubs")], 3, false) == 0
  {
    var hand := [Card(3, "Hearts"), Card(4, "Clubs"), Card(6, "Clubs")];
    WildInGapRun(hand[0], hand[1], hand[2], 3);
    WholeHandMeldScoresZero(hand, 3, false);
  }

  /**
   * Every copy of a melded card leaves with the meld: a hand with an extra copy of
   * a card of one of its melds scores at most what is left of the hand after that meld.
   */
  lemma ExtraCopyOfMeldCardIsFree(hand: seq<Card>, meld: seq<Card>, c: Card, epoch: int, keepWild: bool)
    requires IsMeld(hand, epoch, meld) && c in meld
    ensures LowestScore(hand + [c], epoch, keepWild) <= Remainder(hand, meld, epoch, keepWild)
  {
    var more := hand + [c];
    assert multiset(more) == multiset(hand) + multiset{c};
    assert IsMeld(more, epoch, meld);
    ScoreHandIsMinimum(more, epoch, keepWild);
    RemainderAppend(hand, [c], meld, epoch, keepWild);
    assert Remainder([c], meld, epoch, keepWild) == 0 by {
      assert [c][1..] == [];
    }
  }

  /** Every copy of a melded card leaves the hand: four equal 7s score 0 though only three are chosen. */
  lemma DuplicatesLeaveTogether()
    ensures LowestScore([Card(7, "Hearts"), Card(7, "Hearts"), Card(7, "Hearts"), Card(7, "Hearts")], 3, false) == 0
  {
    var seven := Card(7, "Hearts");
    var hand := [seven, seven, seven, seven];
    var meld := [seven, seven, seven];
    BookIsScoringSet(meld, 3, seven);
    assert IsMeld(hand, 3, meld);
    ScoreHandIsMinimum(hand, 3, false);
    RemainderAllMembers(hand, meld, 3, false);
    ScoreHandNonNegative(hand, 3, false);
  }

  lemma SubMultisetSameSize<T>(a: multiset<T>, b: multiset<T>)
    requires a <= b && |a| == |b|
    ensures a == b
  {
    var d := b - a;
    assert b == a + d;
  }

  /** A joker can not extend 4, 5 of clubs to a run of three, so in round 3 that hand keeps all its points. */
  lemma JokerCannotExtendRun()
    ensures LowestScore([Joker, Card(4, "Clubs"), Card(5, "Clubs")], 3, false) == 59
  {
    var hand := [Joker, Card(4, "Clubs"), Card(5, "Clubs")];
    WildAtRunEndIsNotScoringSet(hand[0], hand[1], hand[2], 3);
    ScoreHandIsMinimum(hand, 3, false);
    forall sub | IsMeld(hand, 3, sub) ensures false {
      SubMultisetSameSize(multiset(sub), multiset(hand));
      ScoringSetPermutation(sub, hand, 3);
    }
    assert Remainder([hand[2]], [], 3, false) == 5 by {
      assert [hand[2]][1..] == [];
    }
    assert Remainder(hand[1..], [], 3, false) == 9 by {
      assert hand[1..][1..] == [hand[2]];
    }
  }

  // ---------------------------------------------------------------------------
  // The best discard
  // ---------------------------------------------------------------------------

  /** `(best_discard, best_score)`; NoDiscard is `(None, inf)`. */
  datatype Discard = NoDiscard | Discard(card: Card, score: int)

  /** Cards equal to `excluded_discard` are skipped (a Card is always truthy). */
  predicate Eligible(hand: seq<Card>, i: nat, excluded: Option<Card>)
    requires i < |hand|
  {
    !(excluded.Some? && hand[i] == excluded.value)
  }

  /** The score of the hand left after discarding position i; wildcards count 0 unless going out. */
  function ScoreWithout(hand: seq<Card>, i: nat, epoch: int, goingOut: bool): int
    requires i < |hand|
  {
    LowestScore(hand[..i] + hand[i + 1..], epoch, !goingOut)
  }

  /** `get_best_discard` after its loop has looked at the first `upto` cards. */
  function BestAmong(hand: seq<Card>, upto: nat, epoch: int, goingOut: bool, excluded: Option<Card>): Discard
    requires upto <= |hand|
  {
    if upto == 0 then NoDiscard
    else
      var before := BestAmong(hand, upto - 1, epoch, goingOut, excluded);
      var i := upto - 1;
      if !Eligible(hand, i, excluded) then before
      else
        var score := ScoreWithout(hand, i, epoch, goingOut);
        if before.NoDiscard? || score < before.score then Discard(hand[i], score) else before
  }

  /** Nothing is chosen exactly when no card looked at so far is eligible. */
  lemma {:induction false} BestAmongNone(hand: seq<Card>, upto: nat, epoch: int, goingOut: bool, excluded: Option<Card>)
    requires upto <= |hand|
    ensures BestAmong(hand, upto, epoch, goingOut, excluded).NoDiscard? <==>
      forall j :: 0 <= j < upto ==> !Eligible(hand, j, excluded)
  {
    if upto > 0 {
      BestAmongNone(hand, upto - 1, epoch, goingOut, excluded);
    }
  }

  /** The chosen score is at most the score of every eligible card looked at so far. */
  lemma {:induction false} BestAmongBelow(hand: seq<Card>, upto: nat, epoch: int, goingOut: bool, excluded: Option<Card>, j: nat)
    requires j < upto <= |hand| && Eligible(hand, j, excluded)
    ensures var r := BestAmong(hand, upto, epoch, goingOut, excluded);
      r.Discard? && r.score <= ScoreWithout(hand, j, epoch, goingOut)
  {
    if j < upto - 1 {
      BestAmongBelow(hand, upto - 1, epoch, goingOut, excluded, j);
    }
  }

  /** What `get_best_discard(hand, game, excluded_discard)` returns. */
  function BestDiscard(hand: seq<Card>, epoch: int, goingOut: bool, excluded: Option<Card>): (r: Discard)
    ensures r.NoDiscard? <==> forall j :: 0 <= j < |hand| ==> !Eligible(hand, j, excluded)
  {
    BestAmongNone(hand, |hand|, epoch, goingOut, excluded);
    BestAmong(hand, |hand|, epoch, goingOut, excluded)
  }

  lemma {:induction false} BestAmongIsFirstMinimum(hand: seq<Card>, upto: nat, epoch: int, goingOut: bool, excluded: Option<Card>)
    requires upto <= |hand|
    ensures var r := BestAmong(hand, upto, epoch, goingOut, excluded);
      r.Discard? ==>
        exists i ::
          0 <= i < upto && Eligible(hand, i, excluded) &&
          r.card == hand[i] && r.score == ScoreWithout(hand, i, epoch, goingOut) &&
          forall j :: 0 <= j < i && Eligible(hand, j, excluded) ==> ScoreWithout(hand, j, epoch, goingOut) > r.score
  {
    if upto > 0 {
      var i := upto - 1;
      var before := BestAmong(hand, i, epoch, goingOut, excluded);
      var r := BestAmong(hand, upto, epoch, goingOut, excluded);
      BestAmongIsFirstMinimum(hand, i, epoch, goingOut, excluded);
      if r != before {
        BestAmongNone(hand, i, epoch, goingOut, excluded);
        forall j | 0 <= j < i && Eligible(hand, j, excluded)
          ensures ScoreWithout(hand, j, epoch, goingOut) > r.score
        {
          BestAmongBelow(hand, i, epoch, goingOut, excluded, j);
        }
      }
    }
  }

  /**
   * `get_best_discard` picks an eligible card whose removal gives the lowest score,
   * the first such card in hand order, and reports that score.
   */
  lemma BestDiscardIsFirstMinimum(hand: seq<Card>, epoch: int, goingOut: bool, excluded: Option<Card>)
    ensures var r := BestDiscard(hand, epoch, goingOut, excluded);
      r.Discard? ==>
        exists i ::
          0 <= i < |hand| && Eligible(hand, i, excluded) &&
          r.card == hand[i] && r.score == ScoreWithout(hand, i, epoch, goingOut) &&
          (forall j :: 0 <= j < |hand| && Eligible(hand, j, excluded) ==> r.score <= ScoreWithout(hand, j, epoch, goingOut)) &&
          forall j :: 0 <= j < i && Eligible(hand, j, excluded) ==> ScoreWithout(hand, j, epoch, goingOut) > r.score
  {
    BestAmongIsFirstMinimum(hand, |hand|, epoch, goingOut, excluded);
    forall j | 0 <= j < |hand| && Eligible(hand, j, excluded) {
      BestAmongBelow(hand, |hand|, epoch, goingOut, excluded, j);
    }
  }

  /** `get_best_discard` as the source runs it. */
  method GetBestDiscard(hand: seq<Card>, epoch: int, goingOut: bool, excluded: Option<Card>) returns (r: Discard)
    ensures r == BestDiscard(hand, epoch, goingOut, excluded)
  {
    r := NoDiscard;
    var i := 0;
    while i < |hand|
      invariant i <= |hand|
      invariant r == BestAmong(hand, i, epoch, goingOut, excluded)
    {
      var card := hand[i];
      if !(excluded.Some? && card == excluded.value) {
        var score := ScoreHand(hand[..i] + hand[i + 1..], epoch, !goingOut);
        assert score == ScoreWithout(hand, i, epoch, goingOut);
        if r.NoDiscard? || score < r.score {
          r := Discard(card, score);
        }
      }
      i := i + 1;
    }
  }
}
