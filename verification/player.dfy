/** The random participant (Player.py): a bid drawn from a distribution that
    favours low bids, with the dealer barred from the bid that would make the
    bids add up to the number of tricks; a card drawn from those that follow
    the leading suit; and a memory of the plays observed since its last bid.

    The random draws are index parameters: `pick` stands for the position
    `random.sample` draws from its list. */
module RandomPlayer {

  import opened Wrappers
  import opened Cards
  import GameState

  type Player = GameState.Player

  /** `scale_fact`: each bid value appears three times more often, plus one, than
      the value above it. */
  const ScaleFactor: nat := 3

  /** A participant's own state: the cards held and the plays observed this round. */
  datatype Agent = Agent(hand: seq<Card>, observed: seq<seq<Card>>)

  // ---------------------------------------------------------------------------
  // The bid distribution

  /** How often `x` occurs in `xs`. */
  function Count(xs: seq<int>, x: int): nat {
    if xs == [] then 0 else (if xs[0] == x then 1 else 0) + Count(xs[1..], x)
  }

  lemma {:induction false} CountConcat(a: seq<int>, b: seq<int>, x: int)
    ensures Count(a + b, x) == Count(a, x) + Count(b, x)
  {
    if a != [] {
      assert (a + b)[0] == a[0] && (a + b)[1..] == a[1..] + b;
      CountConcat(a[1..], b, x);
      assert Count(a + b, x) == (if a[0] == x then 1 else 0) + Count(a[1..] + b, x);
    } else {
      assert a + b == b;
    }
  }

  /** A value is in a list exactly when it occurs in it at least once. */
  lemma {:induction false} CountPositive(xs: seq<int>, x: int)
    ensures x in xs <==> Count(xs, x) > 0
  {
    if xs != [] {
      assert x in xs <==> xs[0] == x || x in xs[1..];
      CountPositive(xs[1..], x);
    }
  }

  /** `n` copies of `v`. */
  function Repeat(v: int, n: nat): (r: seq<int>)
    ensures |r| == n
  {
    if n == 0 then [] else [v] + Repeat(v, n - 1)
  }

  /** `n` copies of `v` hold `v` exactly `n` times and nothing else. */
  lemma {:induction false} RepeatCount(v: int, n: nat, x: int)
    ensures Count(Repeat(v, n), x) == if x == v then n else 0
  {
    if n > 0 {
      RepeatCount(v, n - 1, x);
      assert Repeat(v, n)[1..] == Repeat(v, n - 1);
    }
  }

  /** Blocks `i` to `h` of the bid list: the bid `h - i` repeated `3i + 1` times,
      then the later blocks. */
  function BidBlocks(h: nat, i: nat): seq<int>
    decreases h + 1 - i
  {
    if i > h then [] else Repeat(h - i, BlockLength(i)) + BidBlocks(h, i + 1)
  }

  /** `range(scale_fact * i + 1)`: how often the `i`-th bid from the top appears. */
  function BlockLength(i: nat): (n: nat)
    ensures n == 3 * i + 1
  {
    ScaleFactor * i + 1
  }

  /** `bid_dist` for a hand of `h` cards: every bid from `h` down to 0, bid `b`
      appearing `3(h - b) + 1` times. */
  function BidDist(h: nat): seq<int> {
    BidBlocks(h, 0)
  }

  /** From block `i` on, a bid `b` in `0..h - i` occurs `3(h - b) + 1` times, all
      of them in its own block, and any other bid not at all. */
  lemma {:induction false} BidBlocksCount(h: nat, i: nat, b: int)
    ensures Count(BidBlocks(h, i), b) == if 0 <= b <= h - i then 3 * (h - b) + 1 else 0
    decreases h + 1 - i
  {
    if i <= h {
      BidBlocksCount(h, i + 1, b);
      CountConcat(Repeat(h - i, BlockLength(i)), BidBlocks(h, i + 1), b);
      RepeatCount(h - i, BlockLength(i), b);
    }
  }

  /** The bid list holds exactly the bids 0 to `h`, bid `b` with weight
      `3(h - b) + 1`, so each lower bid is strictly more likely than the one
      above it. */
  lemma BidDistCounts(h: nat)
    ensures forall b :: Count(BidDist(h), b) == if 0 <= b <= h then 3 * (h - b) + 1 else 0
    ensures forall b :: b in BidDist(h) <==> 0 <= b <= h
    ensures forall b :: 0 <= b < h ==> Count(BidDist(h), b) > Count(BidDist(h), b + 1)
  {
    forall b
      ensures Count(BidDist(h), b) == if 0 <= b <= h then 3 * (h - b) + 1 else 0
      ensures b in BidDist(h) <==> 0 <= b <= h
    {
      BidBlocksCount(h, 0, b);
      CountPositive(BidDist(h), b);
    }
  }

  /** The list with every copy of `bad` taken out. */
  function Drop(xs: seq<int>, bad: int): (r: seq<int>)
    ensures forall x :: Count(r, x) == if x == bad then 0 else Count(xs, x)
  {
    if xs == [] then []
    else
      var rest := Drop(xs[1..], bad);
      if xs[0] == bad then rest
      else
        assert ([xs[0]] + rest)[1..] == rest;
        [xs[0]] + rest
  }

  /** The bid the dealer may not make, as `make_bid` computes it: the number of
      tricks less the sum of every bid on record. */
  function BadBidAsWritten(s: GameState.State): int {
    s.currHandSize - BidsOut(s.bids, s.players)
  }

  /** With every player seated once, the bad bid as written is the dealer's bad
      bid lowered by whatever bid of the dealer's own is on record. */
  lemma BadBidAsWrittenCountsOwnBid(s: GameState.State, me: Player)
    requires DistinctRec(s.players) && me in s.players
    ensures BadBidAsWritten(s) == BadBid(s, me) - (if me in s.bids then s.bids[me] else 0)
  {
    if me in s.bids {
      BidsOutUpdate(s.bids, s.players, me, s.bids[me]);
      assert s.bids[me := s.bids[me]] == s.bids;
    } else {
      assert s.bids - {me} == s.bids;
    }
  }

  /** The bid the dealer `me` may not make: the number of tricks less the bids the
      other participants made this round. */
  function BadBid(s: GameState.State, me: Player): int {
    s.currHandSize - BidsOut(s.bids - {me}, s.players)
  }

  /** `sum(state.bids.values())`, taken along the seating list. */
  function BidsOut(bids: map<Player, int>, seats: seq<Player>): int {
    if seats == [] then 0
    else (if seats[0] in bids then bids[seats[0]] else 0) + BidsOut(bids, seats[1..])
  }

  /** Setting one seat's bid changes the sum by that bid alone. */
  lemma {:induction false} BidsOutUpdate(bids: map<Player, int>, seats: seq<Player>, me: Player, v: int)
    ensures DistinctRec(seats) && me in seats ==> BidsOut(bids[me := v], seats) == BidsOut(bids - {me}, seats) + v
  {
    if seats == [] || !DistinctRec(seats) {
    } else if seats[0] == me {
      BidsOutWithout(bids[me := v], bids - {me}, seats[1..], me);
    } else {
      BidsOutUpdate(bids, seats[1..], me, v);
    }
  }

  /** Two bid maps that agree on every seat but `me` sum alike over seats that
      do not include `me`. */
  lemma {:induction false} BidsOutWithout(a: map<Player, int>, b: map<Player, int>, seats: seq<Player>, me: Player)
    requires me !in seats
    requires forall p :: p != me ==> (p in a <==> p in b)
    requires forall p :: p != me && p in a ==> a[p] == b[p]
    ensures BidsOut(a, seats) == BidsOut(b, seats)
  {
    if seats != [] {
      BidsOutWithout(a, b, seats[1..], me);
    }
  }

  /** The bids a participant may draw: the bid list, less every copy of `bad` for
      a dealer when `bad` is not negative. */
  function Allowed(h: nat, isDealer: bool, bad: int): (allowed: seq<int>)
    ensures forall b :: b in allowed <==> 0 <= b <= h && !(isDealer && b == bad)
  {
    BidDistCounts(h);
    var allowed := if isDealer && bad >= 0 then Drop(BidDist(h), bad) else BidDist(h);
    assert forall b :: b in allowed <==> 0 <= b <= h && !(isDealer && b == bad) by {
      forall b ensures b in allowed <==> 0 <= b <= h && !(isDealer && b == bad) {
        CountPositive(allowed, b);
      }
    }
    allowed
  }

  /** `random.sample(bid_dist, k=1)[0]` after the dealer's filter: the entry at
      `pick` of the allowed bids. An empty list has nothing to sample from. */
  function ChooseBid(h: nat, isDealer: bool, bad: int, pick: nat): (r: Result<int>)
    ensures r.Success? <==> !(h == 0 && isDealer && bad == 0)
    ensures r.Failure? ==> r.fault == ValueError
    ensures r.Success? ==> 0 <= r.value <= h
    ensures r.Success? && isDealer ==> r.value != bad
  {
    var allowed := Allowed(h, isDealer, bad);
    if allowed == [] then
      assert !(0 in allowed) && !(h in allowed);
      Failure(ValueError)
    else
      assert allowed[pick % |allowed|] in allowed;
      Success(allowed[pick % |allowed|])
  }

  /** Every bid from 0 to `h` can be drawn, except the one the dealer is barred from. */
  lemma ChooseBidReachable(h: nat, isDealer: bool, bad: int, b: int)
    ensures (exists pick: nat :: ChooseBid(h, isDealer, bad, pick) == Success(b)) <==> 0 <= b <= h && !(isDealer && b == bad)
  {
    if 0 <= b <= h && !(isDealer && b == bad) {
      var allowed := Allowed(h, isDealer, bad);
      var i := IndexOf(allowed, b);
      ModSmall(i, |allowed|);
      assert ChooseBid(h, isDealer, bad, i) == Success(b);
    } else {
      forall pick: nat ensures ChooseBid(h, isDealer, bad, pick) != Success(b) {
      }
    }
  }

  /** `Player.make_bid` as written: the memory of observed plays is cleared and a
      bid drawn; the dealer's barred bid counts every bid on record, including the
      dealer's own bid left over from the previous round. */
  function MakeBidAsWritten(agent: Agent, s: GameState.State, isDealer: bool, pick: nat): (r: Result<(int, Agent)>)
    ensures r.Success? ==> r.value.1 == Agent(agent.hand, [])
    ensures r.Success? ==> ChooseBid(|agent.hand|, isDealer, BadBidAsWritten(s), pick) == Success(r.value.0)
  {
    match ChooseBid(|agent.hand|, isDealer, BadBidAsWritten(s), pick)
    case Failure(f) => Failure(f)
    case Success(bid) => Success((bid, agent.(observed := [])))
  }

  /** `Player.make_bid` with the dealer's barred bid counting only the other
      participants' bids: once the dealer `me` has bid, the bids never add up to
      the number of tricks. */
  function MakeBid(agent: Agent, s: GameState.State, me: Player, isDealer: bool, pick: nat): (r: Result<(int, Agent)>)
    ensures r.Success? ==> r.value.1 == Agent(agent.hand, [])
    ensures r.Success? <==> !(|agent.hand| == 0 && isDealer && BadBid(s, me) == 0)
    ensures r.Failure? ==> r.fault == ValueError
    ensures r.Success? ==> ChooseBid(|agent.hand|, isDealer, BadBid(s, me), pick) == Success(r.value.0)
    ensures r.Success? ==> 0 <= r.value.0 <= |agent.hand|
    ensures r.Success? && isDealer && DistinctRec(s.players) && me in s.players ==>
      BidsOut(s.bids[me := r.value.0], s.players) != s.currHandSize
  {
    match ChooseBid(|agent.hand|, isDealer, BadBid(s, me), pick)
    case Failure(f) => Failure(f)
    case Success(bid) =>
      BidsOutUpdate(s.bids, s.players, me, bid);
      Success((bid, agent.(observed := [])))
  }

  /** Summed along the seating list, a player listed twice has its bid counted
      once per seat; the map holds it once. */
  lemma BidsOutCountsEverySeat()
    ensures BidsOut(map[0 := 1], [0, 0]) == 2
  {
    assert [0, 0][1..] == [0] && [0][1..] == [];
  }

  /** The sum over two seats. */
  lemma BidsOutTwoSeats(bids: map<Player, int>, p: Player, q: Player)
    ensures BidsOut(bids, [p, q]) == (if p in bids then bids[p] else 0) + (if q in bids then bids[q] else 0)
  {
    assert [p, q][1..] == [q] && [q][1..] == [];
    assert BidsOut(bids, [q]) == (if q in bids then bids[q] else 0) + BidsOut(bids, []);
  }

  /** With the dealer barred from 1, the first entry of the allowed bids of a
      two-card hand is 2. */
  lemma AllowedTwoCardsBarringOne()
    ensures |Allowed(2, true, 1)| > 0 && Allowed(2, true, 1)[0] == 2
  {
    var dist := BidDist(2);
    assert dist == Repeat(2, 1) + BidBlocks(2, 1);
    assert dist[0] == 2;
    assert Drop(dist, 1) == [2] + Drop(dist[1..], 1);
  }

  /** Two participants, a two-card round: the dealer's bid of 1 is left over from
      the previous round and the other participant has just bid 0. The dealer is
      barred from 1 instead of 2, may bid 2, and the bids then add up to the
      number of tricks; the corrected bid rejects exactly that bid. */
  lemma DealerHookAsWrittenCountsStaleBid(s: GameState.State, agent: Agent)
    requires s.players == [0, 1] && s.bids == map[0 := 0, 1 := 1] && s.currHandSize == 2
    requires |agent.hand| == 2
    ensures MakeBidAsWritten(agent, s, true, 0) == Success((2, Agent(agent.hand, [])))
    ensures BidsOut(s.bids[1 := 2], s.players) == s.currHandSize
    ensures BadBid(s, 1) == 2
    ensures forall pick: nat :: MakeBid(agent, s, 1, true, pick).Success? && MakeBid(agent, s, 1, true, pick).value.0 != 2
  {
    BidsOutTwoSeats(s.bids, 0, 1);
    BidsOutTwoSeats(s.bids - {1}, 0, 1);
    BidsOutTwoSeats(s.bids[1 := 2], 0, 1);
    assert BadBidAsWritten(s) == 1;
    AllowedTwoCardsBarringOne();
    ModSmall(0, |Allowed(2, true, 1)|);
    assert ChooseBid(2, true, 1, 0) == Success(2);
  }

  // ---------------------------------------------------------------------------
  // Playing a card and observing

  /** `random.sample(list(poss_cards), 1)[0]` and `hand.get(...)`: a card drawn
      from those of the leading suit when the hand holds any, otherwise from the
      whole hand, and the hand with it taken out. */
  function Draw(hand: seq<Card>, lead: Option<Suit>, pick: nat): (r: Result<(Card, seq<Card>)>)
    ensures r.Success? <==> |hand| > 0
    ensures r.Failure? ==> r.fault == ValueError
    ensures r.Success? ==> r.value.0 in hand && r.value.0 in FollowSuitCandidates(hand, lead)
    ensures r.Success? && lead.Some? && (exists x :: x in hand && x.suit == lead.value) ==>
      r.value.0.suit == lead.value
    ensures r.Success? ==> forall x :: x in r.value.1 <==> x in hand && x != r.value.0
    ensures r.Success? && Distinct(hand) ==> |r.value.1| == |hand| - 1 && Distinct(r.value.1)
  {
    var candidates := FollowSuitCandidates(hand, lead);
    if candidates == [] then Failure(ValueError)
    else
      var card := candidates[pick % |candidates|];
      Success((card, Without(hand, card)))
  }

  /** Every card that follows suit, or every card when none can, may be drawn. */
  lemma DrawReachable(hand: seq<Card>, lead: Option<Suit>, c: Card)
    ensures (exists pick: nat :: Draw(hand, lead, pick).Success? && Draw(hand, lead, pick).value.0 == c)
      <==> c in FollowSuitCandidates(hand, lead)
  {
    var candidates := FollowSuitCandidates(hand, lead);
    if c in candidates {
      var i := IndexOf(candidates, c);
      ModSmall(i, |candidates|);
      assert Draw(hand, lead, i).value.0 == c;
    }
    forall pick: nat | Draw(hand, lead, pick).Success?
      ensures Draw(hand, lead, pick).value.0 in candidates
    {
      assert candidates[pick % |candidates|] in candidates;
    }
  }

  lemma ModSmall(i: nat, n: nat)
    requires i < n
    ensures i % n == i
  {
  }

  /** `Player.play_card`: a card of the leading suit when the hand holds one,
      otherwise any card; it leaves the hand and the memory is kept. An empty
      hand has nothing to play. */
  function PlayCard(agent: Agent, lead: Option<Suit>, pick: nat): (r: Result<(Card, Agent)>)
    ensures r.Success? <==> |agent.hand| > 0
    ensures r.Failure? ==> r.fault == ValueError
    ensures r.Success? ==> r.value.0 in agent.hand && r.value.0 in FollowSuitCandidates(agent.hand, lead)
    ensures r.Success? && lead.Some? && (exists x :: x in agent.hand && x.suit == lead.value) ==>
      r.value.0.suit == lead.value
    ensures r.Success? ==> r.value.1.observed == agent.observed
    ensures r.Success? ==> forall x :: x in r.value.1.hand <==> x in agent.hand && x != r.value.0
    ensures r.Success? && Distinct(agent.hand) ==>
      |r.value.1.hand| == |agent.hand| - 1 && Distinct(r.value.1.hand)
  {
    match Draw(agent.hand, lead, pick)
    case Failure(f) => Failure(f)
    case Success(drawn) => Success((drawn.0, agent.(hand := drawn.1)))
  }

  /** `Player.observe`: the plays are added to the memory. */
  function Observe(agent: Agent, played: seq<Card>): (r: Agent)
    ensures r.hand == agent.hand
    ensures |r.observed| == |agent.observed| + 1
    ensures r.observed[..|agent.observed|] == agent.observed && r.observed[|agent.observed|] == played
  {
    agent.(observed := agent.observed + [played])
  }

  /** Observing several plays in turn. */
  function ObserveAll(agent: Agent, plays: seq<seq<Card>>): Agent
    decreases |plays|
  {
    if plays == [] then agent else ObserveAll(Observe(agent, plays[0]), plays[1..])
  }

  /** After a bid, the memory holds exactly the plays observed since, in order. */
  lemma {:induction false} MemorySinceBid(agent: Agent, s: GameState.State, me: Player, isDealer: bool, pick: nat, plays: seq<seq<Card>>)
    requires MakeBid(agent, s, me, isDealer, pick).Success?
    ensures ObserveAll(MakeBid(agent, s, me, isDealer, pick).value.1, plays).observed == plays
  {
    ObserveAllAppends(MakeBid(agent, s, me, isDealer, pick).value.1, plays);
  }

  lemma {:induction false} ObserveAllAppends(agent: Agent, plays: seq<seq<Card>>)
    ensures ObserveAll(agent, plays).observed == agent.observed + plays
    ensures ObserveAll(agent, plays).hand == agent.hand
    decreases |plays|
  {
    if plays != [] {
      ObserveAllAppends(Observe(agent, plays[0]), plays[1..]);
      assert agent.observed + [plays[0]] + plays[1..] == agent.observed + plays;
    }
  }
}
