/** The deterministic lookahead players (STS.py and AlphaBeta.py). Each card of
    the hand gets an immediate score for winning the current trick, plus, while
    the search may go deeper, the best score the rest of the hand reaches when
    the next trick is led in each of the four suits; the player plays the first
    card with the largest score.

    Scores are exact: they are kept in 52nds of the source's win estimate, so a
    trump card of value rank v scores 39 + v, a card of the leading suit 26 + v,
    and any other card 0. */
module Lookahead {

  import opened Wrappers
  import opened Cards
  import GameState
  import RandomPlayer

  /** How deep the search may go: a whole number of levels, or `float('inf')`. */
  datatype Depth = Finite(levels: int) | Unbounded

  /** `max_depth > 1`: the search may look one level further. */
  predicate Deeper(depth: Depth) {
    depth.Unbounded? || depth.levels > 1
  }

  /** `max_depth - 1`; infinity minus one is infinity. */
  function Shallower(depth: Depth): Depth {
    if depth.Unbounded? then Unbounded else Finite(depth.levels - 1)
  }

  /** A card together with its score, as `explore_node` returns them. */
  datatype Scored = Scored(card: Card, score: int)

  /** The immediate score of a card in 52nds. Without a leading suit the card
      leads its own suit. */
  function Immediate(c: Card, lead: Option<Suit>, trump: Option<Suit>): (score: nat)
    ensures score <= 52
    ensures var led := if lead.Some? then lead.value else c.suit;
      score == 0 <==> c.suit != led && Some(c.suit) != trump
    ensures Some(c.suit) == trump ==> score == 52 - (13 - ValueRank(c.value)) && 40 <= score
    ensures Some(c.suit) != trump && score > 0 ==> score == 52 - (26 - ValueRank(c.value)) && 27 <= score <= 39
    ensures lead.None? ==> score > 0
  {
    var led := if lead.Some? then lead.value else c.suit;
    if c.suit != led && Some(c.suit) != trump then 0
    else if Some(c.suit) == trump then 39 + ValueRank(c.value)
    else 26 + ValueRank(c.value)
  }

  /** Every trump card scores strictly more, immediately, than every card that is
      not trump. */
  lemma TrumpBeatsNonTrump(t: Card, c: Card, lead: Option<Suit>, trump: Option<Suit>)
    requires Some(t.suit) == trump && Some(c.suit) != trump
    ensures Immediate(t, lead, trump) > Immediate(c, lead, trump)
  {
  }

  /** `max(results.items(), key=...)`: the first index holding the largest score. */
  function FirstMax(xs: seq<int>): (i: nat)
    requires |xs| > 0
    ensures i < |xs|
    ensures forall k :: 0 <= k < |xs| ==> xs[k] <= xs[i]
    ensures forall k :: 0 <= k < i ==> xs[k] < xs[i]
  {
    if |xs| == 1 then 0
    else
      var j := FirstMax(xs[..|xs| - 1]);
      assert forall k :: 0 <= k < |xs| - 1 ==> xs[..|xs| - 1][k] == xs[k];
      if xs[|xs| - 1] > xs[j] then |xs| - 1 else j
  }

  /** The number of tricks the search scores for a hand of `n` cards: one for the
      current trick, then one more for each level it may go down while more
      than one card is left. */
  function Levels(n: nat, depth: Depth): (l: nat)
    ensures depth.Unbounded? ==> l == AtLeastOne(n)
    ensures depth.Finite? ==> l == Smaller(AtLeastOne(n), AtLeastOne(depth.levels))
    decreases n
  {
    if n > 1 && Deeper(depth) then 1 + Levels(n - 1, Shallower(depth)) else 1
  }

  function AtLeastOne(x: int): nat { if x >= 1 then x else 1 }

  function Smaller(a: int, b: int): int { if a <= b then a else b }

  // ---------------------------------------------------------------------------
  // STS: the depth-bounded search

  /** `max(results.items(), key=...)` over the cards and the outcomes of scoring
      them: the first card with the largest score, and that score; the first
      failed score fails the whole, and `max` of nothing is a `ValueError`. */
  function Pick(cards: seq<Card>, rs: seq<Result<int>>): (r: Result<Scored>)
    requires |rs| == |cards|
    ensures r.Success? ==> r.value.card in cards
  {
    if cards == [] then Failure(ValueError)
    else
      match Collect(rs)
      case Failure(f) => Failure(f)
      case Success(scores) =>
        var i := FirstMax(scores);
        Success(Scored(cards[i], scores[i]))
  }

  /** `Pick` succeeds exactly when there are cards and every score succeeds; it
      returns the first card whose score is the largest. */
  lemma PickSpec(cards: seq<Card>, rs: seq<Result<int>>)
    requires |rs| == |cards|
    ensures Pick(cards, rs).Success? <==> |cards| > 0 && forall k :: 0 <= k < |rs| ==> rs[k].Success?
    ensures var r := Pick(cards, rs);
      r.Success? ==> forall k :: 0 <= k < |rs| ==> rs[k].Success? && rs[k].value <= r.value.score
    ensures var r := Pick(cards, rs);
      r.Success? ==>
        exists i :: 0 <= i < |rs| && cards[i] == r.value.card && rs[i] == Success(r.value.score) &&
          forall k :: 0 <= k < i ==> rs[k].Success? && rs[k].value < r.value.score
  {
    CollectSpec(rs);
    if Pick(cards, rs).Success? {
      var scores := Collect(rs).value;
      var i := FirstMax(scores);
      assert rs[i] == Success(scores[i]);
    }
  }

  /** `STSPlayer.explore_node`: the first card of the hand with the largest score,
      and that score; `max` of nothing fails. */
  function Explore(cards: seq<Card>, depth: Depth, lead: Option<Suit>, trump: Option<Suit>): (r: Result<Scored>)
    ensures r.Success? ==> r.value.card in cards
    decreases |cards|, 2
  {
    Pick(cards, CardScores(cards, depth, lead, trump))
  }

  /** The outcome of scoring each card, in hand order. */
  function CardScores(cards: seq<Card>, depth: Depth, lead: Option<Suit>, trump: Option<Suit>)
    : (rs: seq<Result<int>>)
    decreases |cards|, 1
  {
    seq(|cards|, k requires 0 <= k < |cards| => CardScore(cards, k, depth, lead, trump))
  }

  lemma CardScoresEntries(cards: seq<Card>, depth: Depth, lead: Option<Suit>, trump: Option<Suit>)
    ensures |CardScores(cards, depth, lead, trump)| == |cards|
    ensures forall k :: 0 <= k < |cards| ==> CardScores(cards, depth, lead, trump)[k] == CardScore(cards, k, depth, lead, trump)
  {
  }

  /** The score of `cards[k]`: its immediate score, plus, when more than one card
      is held and the search may go deeper, the best the rest of the hand does
      one level down under any leading suit. */
  function CardScore(cards: seq<Card>, k: nat, depth: Depth, lead: Option<Suit>, trump: Option<Suit>)
    : (r: Result<int>)
    requires k < |cards|
    decreases |cards|, 0
  {
    var immediate := Immediate(cards[k], lead, trump);
    if |cards| > 1 && Deeper(depth) then
      match BestOverSuits(Without(cards, cards[k]), Shallower(depth), trump, Suits)
      case Failure(f) => Failure(f)
      case Success(best) => Success(immediate + best)
    else
      Success(immediate)
  }

  /** The largest score `explore_node` finds for `hand` with each suit of `suits`
      as the leading suit. */
  function BestOverSuits(hand: seq<Card>, depth: Depth, trump: Option<Suit>, suits: seq<Suit>)
    : (r: Result<int>)
    requires |suits| > 0
    decreases |hand|, 3, |suits|
  {
    match Explore(hand, depth, Some(suits[0]), trump)
    case Failure(f) => Failure(f)
    case Success(first) =>
      if |suits| == 1 then Success(first.score)
      else
        match BestOverSuits(hand, depth, trump, suits[1..])
        case Failure(f) => Failure(f)
        case Success(others) => Success(if first.score >= others then first.score else others)
  }

  /** Every card of the hand can be scored. */
  predicate AllScored(cards: seq<Card>, depth: Depth, lead: Option<Suit>, trump: Option<Suit>) {
    forall i :: 0 <= i < |cards| ==> CardScore(cards, i, depth, lead, trump).Success?
  }

  /** `explore_node` succeeds exactly when the hand is not empty and every card's
      score succeeds. */
  lemma ExploreSucceeds(cards: seq<Card>, depth: Depth, lead: Option<Suit>, trump: Option<Suit>)
    ensures Explore(cards, depth, lead, trump).Success? <==> |cards| > 0 && AllScored(cards, depth, lead, trump)
  {
    var r := Explore(cards, depth, lead, trump);
    if r.Success? {
      ExploreSpec(cards, depth, lead, trump);
      assert r.value.card in cards;
    } else if |cards| > 0 && AllScored(cards, depth, lead, trump) {
      ExploreWhenAllScored(cards, depth, lead, trump);
    }
  }

  lemma ExploreWhenAllScored(cards: seq<Card>, depth: Depth, lead: Option<Suit>, trump: Option<Suit>)
    requires |cards| > 0 && AllScored(cards, depth, lead, trump)
    ensures Explore(cards, depth, lead, trump).Success?
  {
    var rs := CardScores(cards, depth, lead, trump);
    CardScoresEntries(cards, depth, lead, trump);
    PickSpec(cards, rs);
  }

  /** What `explore_node` returns: its score is the largest card score, and its
      card is the first card reaching it. */
  lemma ExploreSpec(cards: seq<Card>, depth: Depth, lead: Option<Suit>, trump: Option<Suit>)
    ensures var r := Explore(cards, depth, lead, trump);
      && (r.Success? ==> forall i :: 0 <= i < |cards| ==>
            CardScore(cards, i, depth, lead, trump).Success? && CardScore(cards, i, depth, lead, trump).value <= r.value.score)
      && (r.Success? ==>
            exists i :: 0 <= i < |cards| && cards[i] == r.value.card
              && CardScore(cards, i, depth, lead, trump) == Success(r.value.score)
              && forall k :: 0 <= k < i ==>
                   CardScore(cards, k, depth, lead, trump).Success? && CardScore(cards, k, depth, lead, trump).value < r.value.score)
  {
    PickSpec(cards, CardScores(cards, depth, lead, trump));
    CardScoresEntries(cards, depth, lead, trump);
  }

  /** `max(probs)`: the result is the score of some suit's search and no suit's
      search scores more. */
  lemma {:induction false} BestOverSuitsSpec(hand: seq<Card>, depth: Depth, trump: Option<Suit>, suits: seq<Suit>)
    requires |suits| > 0
    ensures var r := BestOverSuits(hand, depth, trump, suits);
      && (r.Success? <==> forall j :: 0 <= j < |suits| ==> Explore(hand, depth, Some(suits[j]), trump).Success?)
      && (r.Success? ==> forall j :: 0 <= j < |suits| ==> Explore(hand, depth, Some(suits[j]), trump).value.score <= r.value)
      && (r.Success? ==> exists j :: 0 <= j < |suits| && Explore(hand, depth, Some(suits[j]), trump).value.score == r.value)
    decreases |suits|
  {
    if |suits| > 1 {
      BestOverSuitsSpec(hand, depth, trump, suits[1..]);
      assert forall j :: 1 <= j < |suits| ==> suits[1..][j - 1] == suits[j];
    }
  }

  /** A hand without repeated cards is always searched successfully, and every
      score lies between 0 and 52 per trick the search looks at. */
  lemma {:induction false} ExploreBounded(cards: seq<Card>, depth: Depth, lead: Option<Suit>, trump: Option<Suit>)
    ensures var r := Explore(cards, depth, lead, trump);
      && (Distinct(cards) && |cards| > 0 ==> r.Success?)
      && (r.Success? ==> 0 <= r.value.score <= 52 * Levels(|cards|, depth))
    decreases |cards|, 2
  {
    ExploreSucceeds(cards, depth, lead, trump);
    ExploreSpec(cards, depth, lead, trump);
    forall i | 0 <= i < |cards|
      ensures Distinct(cards) ==> CardScore(cards, i, depth, lead, trump).Success?
      ensures CardScore(cards, i, depth, lead, trump).Success? ==>
        0 <= CardScore(cards, i, depth, lead, trump).value <= 52 * Levels(|cards|, depth)
    {
      CardScoreBounded(cards, i, depth, lead, trump);
    }
  }

  lemma {:induction false} CardScoreBounded(cards: seq<Card>, k: nat, depth: Depth, lead: Option<Suit>, trump: Option<Suit>)
    requires k < |cards|
    ensures var r := CardScore(cards, k, depth, lead, trump);
      && (Distinct(cards) ==> r.Success?)
      && (r.Success? ==> Immediate(cards[k], lead, trump) <= r.value <= 52 * Levels(|cards|, depth))
    decreases |cards|, 0
  {
    if |cards| > 1 && Deeper(depth) {
      var rest := Without(cards, cards[k]);
      BestOverSuitsBounded(rest, Shallower(depth), trump, Suits);
      LevelsMonotone(|rest|, |cards| - 1, Shallower(depth));
    }
  }

  lemma {:induction false} BestOverSuitsBounded(hand: seq<Card>, depth: Depth, trump: Option<Suit>, suits: seq<Suit>)
    requires |suits| > 0
    ensures var r := BestOverSuits(hand, depth, trump, suits);
      && (Distinct(hand) && |hand| > 0 ==> r.Success?)
      && (r.Success? ==> 0 <= r.value <= 52 * Levels(|hand|, depth))
    decreases |hand|, 3, |suits|
  {
    ExploreBounded(hand, depth, Some(suits[0]), trump);
    if |suits| > 1 {
      BestOverSuitsBounded(hand, depth, trump, suits[1..]);
    }
  }

  /** The immediate scores of a hand, in hand order. */
  function Immediates(cards: seq<Card>, lead: Option<Suit>, trump: Option<Suit>): (xs: seq<int>)
    ensures |xs| == |cards|
    ensures forall i :: 0 <= i < |cards| ==> xs[i] == Immediate(cards[i], lead, trump)
  {
    seq(|cards|, i requires 0 <= i < |cards| => Immediate(cards[i], lead, trump))
  }

  /** When the search may not go deeper (`max_depth <= 1`) or only one card is
      left, `explore_node` is greedy: it returns the first card with the largest
      immediate score. */
  lemma ExploreGreedy(cards: seq<Card>, depth: Depth, lead: Option<Suit>, trump: Option<Suit>)
    requires |cards| > 0
    requires !Deeper(depth) || |cards| == 1
    ensures var i := FirstMax(Immediates(cards, lead, trump));
      Explore(cards, depth, lead, trump) == Success(Scored(cards[i], Immediate(cards[i], lead, trump)))
  {
    var xs := Immediates(cards, lead, trump);
    var rs := CardScores(cards, depth, lead, trump);
    CardScoresEntries(cards, depth, lead, trump);
    assert forall k :: 0 <= k < |cards| ==> rs[k] == Success(xs[k]);
    CollectSpec(rs);
    var scores := Collect(rs).value;
    assert scores == xs;
  }

  // ---------------------------------------------------------------------------
  // The depth limit and the unlimited search

  /** A depth limit at least as large as the hand never cuts the search short:
      the search then returns what the unlimited one does. */
  lemma {:induction false} DeepEnoughIsUnbounded(cards: seq<Card>, d: int, lead: Option<Suit>, trump: Option<Suit>)
    requires d >= |cards|
    ensures Explore(cards, Finite(d), lead, trump) == Explore(cards, Unbounded, lead, trump)
    decreases |cards|, 2
  {
    if cards != [] {
      ScoresDeepEnough(cards, d, lead, trump);
    }
  }

  lemma {:induction false} ScoresDeepEnough(cards: seq<Card>, d: int, lead: Option<Suit>, trump: Option<Suit>)
    requires |cards| <= d
    ensures CardScores(cards, Finite(d), lead, trump) == CardScores(cards, Unbounded, lead, trump)
    decreases |cards|, 1
  {
    forall k | 0 <= k < |cards|
      ensures CardScore(cards, k, Finite(d), lead, trump) == CardScore(cards, k, Unbounded, lead, trump)
    {
      CardScoreDeepEnough(cards, k, d, lead, trump);
    }
  }

  lemma {:induction false} CardScoreDeepEnough(cards: seq<Card>, k: nat, d: int, lead: Option<Suit>, trump: Option<Suit>)
    requires k < |cards| <= d
    ensures CardScore(cards, k, Finite(d), lead, trump) == CardScore(cards, k, Unbounded, lead, trump)
    decreases |cards|, 0
  {
    if |cards| > 1 {
      BestDeepEnough(Without(cards, cards[k]), d - 1, trump, Suits);
    }
  }

  lemma {:induction false} BestDeepEnough(hand: seq<Card>, d: int, trump: Option<Suit>, suits: seq<Suit>)
    requires |hand| <= d && |suits| > 0
    ensures BestOverSuits(hand, Finite(d), trump, suits) == BestOverSuits(hand, Unbounded, trump, suits)
    decreases |hand|, 3, |suits|
  {
    DeepEnoughIsUnbounded(hand, d, Some(suits[0]), trump);
    if |suits| > 1 {
      BestDeepEnough(hand, d, trump, suits[1..]);
    }
  }

  lemma LevelsMonotone(m: nat, n: nat, depth: Depth)
    requires m <= n
    ensures Levels(m, depth) <= Levels(n, depth)
  {
  }

  // ---------------------------------------------------------------------------
  // AlphaBeta: the same search without a depth limit

  /** `AlphaBetaPlayer.explore_node`: it looks further whenever more than one card is left. */
  function ExploreAll(cards: seq<Card>, lead: Option<Suit>, trump: Option<Suit>): (r: Result<Scored>)
    ensures r.Success? ==> r.value.card in cards
    decreases |cards|, 2
  {
    Pick(cards, CardScoresAll(cards, lead, trump))
  }

  function CardScoresAll(cards: seq<Card>, lead: Option<Suit>, trump: Option<Suit>): (rs: seq<Result<int>>)
    decreases |cards|, 1
  {
    seq(|cards|, k requires 0 <= k < |cards| => CardScoreAll(cards, k, lead, trump))
  }

  function CardScoreAll(cards: seq<Card>, k: nat, lead: Option<Suit>, trump: Option<Suit>): (r: Result<int>)
    requires k < |cards|
    decreases |cards|, 0
  {
    var immediate := Immediate(cards[k], lead, trump);
    if |cards| > 1 then
      var rest := Without(cards, cards[k]);
      match BestOverSuitsAll(rest, trump, Suits)
      case Failure(f) => Failure(f)
      case Success(best) => Success(immediate + best)
    else
      Success(immediate)
  }

  function BestOverSuitsAll(hand: seq<Card>, trump: Option<Suit>, suits: seq<Suit>): (r: Result<int>)
    requires |suits| > 0
    decreases |hand|, 3, |suits|
  {
    match ExploreAll(hand, Some(suits[0]), trump)
    case Failure(f) => Failure(f)
    case Success(first) =>
      if |suits| == 1 then Success(first.score)
      else
        match BestOverSuitsAll(hand, trump, suits[1..])
        case Failure(f) => Failure(f)
        case Success(others) => Success(if first.score >= others then first.score else others)
  }

  /** The AlphaBeta player's search is the STS search with no depth limit. */
  lemma {:induction false} AlphaBetaIsUnboundedSts(cards: seq<Card>, lead: Option<Suit>, trump: Option<Suit>)
    ensures ExploreAll(cards, lead, trump) == Explore(cards, Unbounded, lead, trump)
    decreases |cards|, 2
  {
    if cards != [] {
      ScoresAllIsUnbounded(cards, lead, trump);
    }
  }

  lemma {:induction false} ScoresAllIsUnbounded(cards: seq<Card>, lead: Option<Suit>, trump: Option<Suit>)
    ensures CardScoresAll(cards, lead, trump) == CardScores(cards, Unbounded, lead, trump)
    decreases |cards|, 1
  {
    forall k | 0 <= k < |cards|
      ensures CardScoreAll(cards, k, lead, trump) == CardScore(cards, k, Unbounded, lead, trump)
    {
      CardScoreAllIsUnbounded(cards, k, lead, trump);
    }
  }

  lemma {:induction false} CardScoreAllIsUnbounded(cards: seq<Card>, k: nat, lead: Option<Suit>, trump: Option<Suit>)
    requires k < |cards|
    ensures CardScoreAll(cards, k, lead, trump) == CardScore(cards, k, Unbounded, lead, trump)
    decreases |cards|, 0
  {
    if |cards| > 1 {
      BestAllIsUnbounded(Without(cards, cards[k]), trump, Suits);
    }
  }

  lemma {:induction false} BestAllIsUnbounded(hand: seq<Card>, trump: Option<Suit>, suits: seq<Suit>)
    requires |suits| > 0
    ensures BestOverSuitsAll(hand, trump, suits) == BestOverSuits(hand, Unbounded, trump, suits)
    decreases |hand|, 3, |suits|
  {
    AlphaBetaIsUnboundedSts(hand, Some(suits[0]), trump);
    if |suits| > 1 {
      BestAllIsUnbounded(hand, trump, suits[1..]);
    }
  }

  // ---------------------------------------------------------------------------
  // The players

  /** `make_bid` of both lookahead players: they bid to take every trick of the
      round, one per card held. */
  function MakeBid(hand: seq<Card>): (bid: nat)
    ensures bid == |hand|
  {
    |hand|
  }

  /** A lookahead dealer ignores the dealer's restriction: when the other
      participants have all bid 0, its bid brings the bids up to the number of
      tricks of the round, the one total a random dealer never reaches. */
  lemma {:induction false} DealerMayMatchTricks(s: GameState.State, me: GameState.Player, hand: seq<Card>)
    requires |hand| == s.currHandSize && DistinctRec(s.players) && me in s.players
    requires RandomPlayer.BidsOut(s.bids - {me}, s.players) == 0
    ensures RandomPlayer.BidsOut(s.bids[me := MakeBid(hand)], s.players) == s.currHandSize
    ensures RandomPlayer.BadBid(s, me) == MakeBid(hand)
  {
    RandomPlayer.BidsOutUpdate(s.bids, s.players, me, MakeBid(hand));
  }

  /** `STSPlayer.play_card`: the card the search picks, and the hand with that
      card taken out. */
  function PlayCard(hand: seq<Card>, depth: Depth, lead: Option<Suit>, trump: Option<Suit>)
    : (r: Result<(Card, seq<Card>)>)
    ensures Distinct(hand) ==> (r.Success? <==> |hand| > 0)
    ensures r.Success? ==>
      Explore(hand, depth, lead, trump).Success? && r.value.0 == Explore(hand, depth, lead, trump).value.card
    ensures r.Success? ==>
      r.value.0 in hand && forall x :: x in r.value.1 <==> x in hand && x != r.value.0
    ensures r.Success? && Distinct(hand) ==> |r.value.1| == |hand| - 1 && Distinct(r.value.1)
  {
    ExploreBounded(hand, depth, lead, trump);
    match Explore(hand, depth, lead, trump)
    case Failure(f) => Failure(f)
    case Success(choice) => Success((choice.card, Without(hand, choice.card)))
  }

  /** `AlphaBetaPlayer.play_card`: the same with the unlimited search. */
  function PlayCardAll(hand: seq<Card>, lead: Option<Suit>, trump: Option<Suit>): (r: Result<(Card, seq<Card>)>)
    ensures r == PlayCard(hand, Unbounded, lead, trump)
  {
    AlphaBetaIsUnboundedSts(hand, lead, trump);
    match ExploreAll(hand, lead, trump)
    case Failure(f) => Failure(f)
    case Success(choice) => Success((choice.card, Without(hand, choice.card)))
  }

  /** The lookahead players do not restrict themselves to the leading suit: with
      Hearts led and Spades trump, a one-level search holding the two of Hearts
      and the ace of Spades plays the ace, although it could follow suit. */
  lemma LookaheadMayNotFollowSuit()
    ensures var hand := [Card(Hearts, Two), Card(Spades, Ace)];
      && PlayCard(hand, Finite(1), Some(Hearts), Some(Spades)).Success?
      && PlayCard(hand, Finite(1), Some(Hearts), Some(Spades)).value.0 == Card(Spades, Ace)
      && Card(Spades, Ace) !in FollowSuitCandidates(hand, Some(Hearts))
  {
    var hand := [Card(Hearts, Two), Card(Spades, Ace)];
    ExploreGreedy(hand, Finite(1), Some(Hearts), Some(Spades));
    assert Immediates(hand, Some(Hearts), Some(Spades)) == [27, 52];
  }
}
