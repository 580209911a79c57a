/** Playing cards, the 52-card deck and the hand operations of the card
    library the game uses (a card is a suit and a face value; a hand is an
    ordered stack from which cards are taken by exact match). */
module Cards {

  import opened Wrappers

  datatype Suit = Clubs | Hearts | Spades | Diamonds

  datatype Value = Two | Three | Four | Five | Six | Seven | Eight | Nine | Ten
                 | Jack | Queen | King | Ace

  datatype Card = Card(suit: Suit, value: Value)

  /** The four suits in the order the lookahead players enumerate them. */
  const Suits: seq<Suit> := [Clubs, Hearts, Spades, Diamonds]

  const Values: seq<Value> := [Two, Three, Four, Five, Six, Seven, Eight, Nine, Ten,
                               Jack, Queen, King, Ace]

  /** The fixed value ranking of the game: Ace 13, King 12, ..., 2 is 1. */
  function ValueRank(v: Value): (r: nat)
    ensures 1 <= r <= 13
    ensures r == 13 <==> v == Ace
    ensures r == 1 <==> v == Two
  {
    match v
    case Two => 1
    case Three => 2
    case Four => 3
    case Five => 4
    case Six => 5
    case Seven => 6
    case Eight => 7
    case Nine => 8
    case Ten => 9
    case Jack => 10
    case Queen => 11
    case King => 12
    case Ace => 13
  }

  /** The rank table lists the values in increasing order, one rank step apart,
      so it is a bijection between the thirteen values and 1..13. */
  lemma ValueRankIsPosition(k: nat)
    requires k < 13
    ensures ValueRank(Values[k]) == k + 1
  {
  }

  lemma ValueRankInjective(a: Value, b: Value)
    ensures ValueRank(a) == ValueRank(b) <==> a == b
  {
  }

  predicate Distinct<T(==)>(s: seq<T>) {
    forall i, j :: 0 <= i < j < |s| ==> s[i] != s[j]
  }

  /** A sequence is distinct exactly when its head is not repeated in its
      tail and the tail is distinct. */
  lemma DistinctSplit<T>(s: seq<T>)
    requires |s| > 0
    ensures Distinct(s) <==> s[0] !in s[1..] && Distinct(s[1..])
    ensures forall rest: seq<T> :: s[0] !in rest && Distinct(rest) ==> Distinct([s[0]] + rest)
  {
    if Distinct(s) {
      forall k | 0 <= k < |s[1..]| ensures s[1..][k] != s[0] {
        assert s[1..][k] == s[k + 1];
      }
    }
    forall rest: seq<T> | s[0] !in rest && Distinct(rest) ensures Distinct([s[0]] + rest) {
      var t := [s[0]] + rest;
      forall i, j | 0 <= i < j < |t| ensures t[i] != t[j] {
        if i == 0 { assert t[j] == rest[j - 1]; }
        else { assert t[i] == rest[i - 1] && t[j] == rest[j - 1]; }
      }
    }
  }

  /** `Distinct`, stated head first: the head is not repeated and the tail is
      distinct. Proofs that carry this form unfold it one step at a time. */
  predicate DistinctRec<T(==)>(s: seq<T>)
    decreases |s|
  {
    |s| == 0 || (s[0] !in s[1..] && DistinctRec(s[1..]))
  }

  lemma {:induction false} DistinctRecIff<T>(s: seq<T>)
    ensures DistinctRec(s) <==> Distinct(s)
    decreases |s|
  {
    if |s| > 0 {
      DistinctRecIff(s[1..]);
      DistinctSplit(s);
    }
  }

  /** The position of the first occurrence of `x` in `s`. */
  function IndexOf<T(==)>(s: seq<T>, x: T): (i: nat)
    requires x in s
    ensures i < |s| && s[i] == x
    ensures forall k :: 0 <= k < i ==> s[k] != x
  {
    if s[0] == x then 0 else 1 + IndexOf(s[1..], x)
  }

  /** The thirteen cards of one suit, Two to Ace. */
  function SuitCards(s: Suit): (r: seq<Card>)
    ensures |r| == 13
    ensures forall c :: c in r <==> c.suit == s
    ensures Distinct(r)
  {
    var r := seq(13, k requires 0 <= k < 13 => Card(s, Values[k]));
    assert forall c: Card :: c.suit == s ==> c in r by {
      forall c: Card | c.suit == s
        ensures c in r
      {
        var k := ValueRank(c.value) - 1;
        assert r[k] == c;
      }
    }
    r
  }

  /** A full 52-card deck, suit by suit. */
  function Deck(): (d: seq<Card>)
    ensures |d| == 52
    ensures forall c :: c in d
    ensures Distinct(d)
  {
    var d := SuitCards(Clubs) + SuitCards(Hearts) + SuitCards(Spades) + SuitCards(Diamonds);
    assert forall c: Card :: c in d by {
      forall c: Card ensures c in d {
        assert c in SuitCards(c.suit);
      }
    }
    d
  }

  /** Taking a card out of a stack by its name: every card equal to `c` is removed
      and the others keep their order. */
  function Without(hand: seq<Card>, c: Card): (r: seq<Card>)
    ensures forall x :: x in r <==> x in hand && x != c
    ensures |r| <= |hand|
    ensures c in hand ==> |r| < |hand|
    ensures c !in hand ==> r == hand
    ensures Distinct(hand) ==> Distinct(r)
    ensures Distinct(hand) && c in hand ==> |r| == |hand| - 1
  {
    if hand == [] then []
    else
      var rest := Without(hand[1..], c);
      assert forall x :: x in hand <==> x == hand[0] || x in hand[1..];
      DistinctSplit(hand);
      if hand[0] == c then rest else [hand[0]] + rest
  }

  /** The cards of one suit in a hand, in hand order. */
  function OfSuit(hand: seq<Card>, s: Suit): (r: seq<Card>)
    ensures forall x :: x in r <==> x in hand && x.suit == s
    ensures |r| <= |hand|
    ensures Distinct(hand) ==> Distinct(r)
  {
    if hand == [] then []
    else
      var rest := OfSuit(hand[1..], s);
      assert forall x :: x in hand <==> x == hand[0] || x in hand[1..];
      DistinctSplit(hand);
      if hand[0].suit == s then [hand[0]] + rest else rest
  }

  /** The cards a player may choose from: those of the leading suit when a
      leading suit is known and the hand holds any, otherwise the whole hand. */
  function FollowSuitCandidates(hand: seq<Card>, lead: Option<Suit>): (r: seq<Card>)
    ensures forall x :: x in r ==> x in hand
    ensures |hand| > 0 ==> |r| > 0
    ensures lead.Some? && (exists x :: x in hand && x.suit == lead.value) ==>
              forall x :: x in r <==> x in hand && x.suit == lead.value
    ensures (lead.None? || forall x :: x in hand ==> x.suit != lead.value) ==> r == hand
  {
    if lead.Some? && OfSuit(hand, lead.value) != [] then
      assert OfSuit(hand, lead.value)[0] in hand;
      OfSuit(hand, lead.value)
    else
      assert lead.Some? ==> OfSuit(hand, lead.value) == [];
      hand
  }
}
