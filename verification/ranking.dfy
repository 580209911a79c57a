/** The per-trick ranking context (GameState.py): suit ranks derived from the
    trump suit and the leading suit, the fixed value ranks, the card comparison
    `card_gt`, and the best card of a trick as cards are played in turn. */
module Ranking {

  import opened Wrappers
  import opened Cards

  /** Rank of each suit for the current trick. */
  type SuitRanks = map<Suit, nat>

  /** Every suit ranks 1 until a trick sets the context up. */
  const BaseSuitRanks: SuitRanks := map[Spades := 1, Hearts := 1, Clubs := 1, Diamonds := 1]

  /** The rank a suit gets in a trick: 3 for trump, 2 for the leading suit when it is
      not trump, 1 for the rest. */
  function SuitRank(trump: Option<Suit>, lead: Suit, s: Suit): nat {
    if trump == Some(s) then 3 else if s == lead then 2 else 1
  }

  /** The ranking context built when the first card of a trick is played: the base
      table, then trump raised to 3, then the leading suit raised to 2 unless it is
      trump. With no trump set, no suit reaches 3. */
  function TrickRanks(trump: Option<Suit>, lead: Suit): (r: SuitRanks)
    ensures forall s: Suit :: s in r && r[s] == SuitRank(trump, lead, s)
  {
    var withTrump := if trump.Some? then BaseSuitRanks[trump.value := 3] else BaseSuitRanks;
    var r := if trump != Some(lead) then withTrump[lead := 2] else withTrump;
    assert forall s: Suit :: s in r && r[s] == SuitRank(trump, lead, s) by {
      forall s: Suit ensures s in r && r[s] == SuitRank(trump, lead, s) {
        assert s == Spades || s == Hearts || s == Clubs || s == Diamonds;
        assert s in BaseSuitRanks && BaseSuitRanks[s] == 1;
        if trump.Some? && s != trump.value {
          assert withTrump[s] == 1;
        }
      }
    }
    r
  }

  /** The ranking context ranks exactly one suit 3 when trump is set, exactly one
      suit 2 when the lead differs from trump, and every other suit 1. */
  lemma TrickRanksTiers(trump: Option<Suit>, lead: Suit, s: Suit)
    ensures TrickRanks(trump, lead)[s] == 3 <==> trump == Some(s)
    ensures TrickRanks(trump, lead)[s] == 2 <==> s == lead && trump != Some(lead)
    ensures TrickRanks(trump, lead)[s] == 1 <==> s != lead && trump != Some(s)
  {
  }

  predicate Ranked(ranks: SuitRanks, c: Card) {
    c.suit in ranks
  }

  /** `card_gt`: a higher-ranked suit wins; between equally ranked suits the higher value wins. */
  function CardGt(a: Card, b: Card, ranks: SuitRanks): bool
    requires Ranked(ranks, a) && Ranked(ranks, b)
  {
    if ranks[a.suit] == ranks[b.suit] then ValueRank(a.value) > ValueRank(b.value)
    else ranks[a.suit] > ranks[b.suit]
  }

  /** `card_gt` is a strict order: irreflexive, asymmetric and transitive. */
  lemma CardGtStrictOrder(a: Card, b: Card, c: Card, ranks: SuitRanks)
    requires Ranked(ranks, a) && Ranked(ranks, b) && Ranked(ranks, c)
    ensures !CardGt(a, a, ranks)
    ensures CardGt(a, b, ranks) ==> !CardGt(b, a, ranks)
    ensures CardGt(a, b, ranks) && CardGt(b, c, ranks) ==> CardGt(a, c, ranks)
  {
  }

  /** Two distinct cards are always ordered when either belongs to the leading or
      the trump suit. */
  lemma CardGtTotalOnContenders(trump: Option<Suit>, lead: Suit, a: Card, b: Card)
    requires a != b
    requires a.suit == lead || Some(a.suit) == trump
    ensures CardGt(a, b, TrickRanks(trump, lead)) || CardGt(b, a, TrickRanks(trump, lead))
  {
    var r := TrickRanks(trump, lead);
    if r[a.suit] == r[b.suit] {
      assert a.suit == b.suit;
      ValueRankInjective(a.value, b.value);
    }
  }

  /** Between two cards of suits that are neither leading nor trump, equal values
      are tied: neither beats the other, so the order is not total. */
  lemma OffSuitTie()
    ensures var r := TrickRanks(Some(Hearts), Clubs);
      && !CardGt(Card(Spades, Five), Card(Diamonds, Five), r)
      && !CardGt(Card(Diamonds, Five), Card(Spades, Five), r)
  {
  }

  /** The index of the best card of a trick whose cards were played in this order:
      the first card leads and is best; a later card takes over only when it beats
      the best so far. */
  function BestIndex(cards: seq<Card>, trump: Option<Suit>): (b: nat)
    requires |cards| >= 1
    ensures b < |cards|
    ensures var r := TrickRanks(trump, cards[0].suit);
      && (forall k :: 0 <= k < |cards| ==> !CardGt(cards[k], cards[b], r))
      && (forall k :: 0 <= k < b ==> CardGt(cards[b], cards[k], r))
    ensures cards[b].suit == cards[0].suit || Some(cards[b].suit) == trump
  {
    if |cards| == 1 then 0
    else
      var last := |cards| - 1;
      var r := TrickRanks(trump, cards[0].suit);
      var prev := BestIndex(cards[..last], trump);
      assert cards[..last][prev] == cards[prev];
      assert forall k :: 0 <= k < last ==> cards[..last][k] == cards[k];
      if CardGt(cards[last], cards[prev], r) then
        assert forall k :: 0 <= k < last ==> CardGt(cards[last], cards[k], r) by {
          forall k | 0 <= k < last ensures CardGt(cards[last], cards[k], r) {
            assert !CardGt(cards[k], cards[prev], r);
            if cards[k] != cards[prev] {
              CardGtTotalOnContenders(trump, cards[0].suit, cards[prev], cards[k]);
              CardGtStrictOrder(cards[last], cards[prev], cards[k], r);
            }
          }
        }
        last
      else
        prev
  }
}
