/** The round state machine of the game (GameState.py). A state is an immutable
    value: every operation returns the next state, so a copy made for a search
    branch can never leak changes into the state it was copied from. */
module GameState {

  import opened Wrappers
  import opened Cards
  import opened Ranking
  import Ledger

  type Player = Ledger.Player

  const TotalCards: int := 52

  /** The best card of the trick so far and the seat index of whoever played it.
      The source keeps `best_player_idx == -1` for "none"; here that is `None`. */
  datatype Best = Best(idx: nat, card: Card)

  datatype State = State(
    players: seq<Player>,
    maxHand: int,
    numRounds: int,
    roundHand: seq<int>,
    tracker: Ledger.Tracker,
    currRound: nat,
    currTrick: nat,
    currHandSize: int,
    dealer: Option<Player>,
    trumpSuit: Option<Suit>,
    leadingSuit: Option<Suit>,
    discard: seq<Card>,
    customRanks: SuitRanks,       // empty until a trick sets up its ranking context
    trickCards: map<Player, Card>,
    bids: map<Player, int>,
    best: Option<Best>,
    playerOrder: seq<nat>,
    playerTurn: nat,
    dealerIdx: int)

  // ---------------------------------------------------------------------------
  // The hand-size schedule

  /** The hand size of round `i`: one more each round up to `maxHand`, then one less. */
  function RoundHandAt(maxHand: int, i: int): int {
    if i < maxHand then i + 1 else 2 * maxHand - 1 - i
  }

  /** The schedule for a largest hand of `maxHand` cards: `2 * maxHand - 1` rounds. */
  function RoundHand(maxHand: int): seq<int> {
    seq(if maxHand > 0 then 2 * maxHand - 1 else 0, i => RoundHandAt(maxHand, i))
  }

  /** The constructor's loop: the hand size goes up by one while the round index is
      below `maxHand` and down by one afterwards. */
  method BuildRoundHand(maxHand: int) returns (rh: seq<int>)
    ensures rh == RoundHand(maxHand)
    ensures maxHand >= 1 ==>
      && |rh| == 2 * maxHand - 1
      && rh[0] == 1 && rh[maxHand - 1] == maxHand && rh[|rh| - 1] == 1
      && (forall i :: 0 <= i < maxHand - 1 ==> rh[i + 1] == rh[i] + 1)
      && (forall i :: maxHand - 1 <= i < |rh| - 1 ==> rh[i + 1] == rh[i] - 1)
      && (forall i :: 0 <= i < |rh| ==> 1 <= rh[i] <= maxHand && rh[i] == rh[|rh| - 1 - i])
  {
    var numRounds := maxHand * 2 - 1;
    rh := [];
    var handSize := 0;
    var i := 0;
    while i < numRounds
      invariant 0 <= i <= if numRounds > 0 then numRounds else 0
      invariant |rh| == i
      invariant forall k :: 0 <= k < i ==> rh[k] == RoundHandAt(maxHand, k)
      invariant handSize == if i == 0 then 0 else rh[i - 1]
    {
      if i < maxHand {
        handSize := handSize + 1;
      } else {
        handSize := handSize - 1;
      }
      rh := rh + [handSize];
      i := i + 1;
    }
    assert i == if maxHand > 0 then 2 * maxHand - 1 else 0;
    assert |rh| == |RoundHand(maxHand)|;
  }

  /** A five-card maximum gives nine rounds of 1, 2, 3, 4, 5, 4, 3, 2, 1 cards. */
  lemma FiveCardSchedule()
    ensures RoundHand(5) == [1, 2, 3, 4, 5, 4, 3, 2, 1]
  {
  }

  // ---------------------------------------------------------------------------
  // Seat orders

  /** A seat order is a permutation of the seat indices 0..n-1. */
  predicate IsSeatOrder(order: seq<nat>, n: nat) {
    && |order| == n
    && (forall k :: 0 <= k < n ==> order[k] < n)
    && (forall j, k :: 0 <= j < k < n ==> order[j] != order[k])
  }

  /** The order seats the players from seat `start mod n` round the table. */
  predicate SeatsFrom(order: seq<nat>, start: nat, n: nat) {
    && |order| == n
    && forall k :: 0 <= k < n ==> order[k] == (start + k) % n
  }

  /** `list(range(offset, n)) + list(range(0, offset))`: the seats from `offset`
      onwards, then the seats before it. */
  function Rotation(n: nat, offset: nat): (order: seq<nat>)
    requires offset <= n
    ensures IsSeatOrder(order, n)
    ensures DistinctRec(order)
    ensures SeatsFrom(order, offset, n)
  {
    var order: seq<nat> := seq(n - offset, k requires 0 <= k => offset + k) + seq(offset, k requires 0 <= k => k);
    assert forall k :: 0 <= k < n ==> order[k] == if k < n - offset then offset + k else k - (n - offset);
    RotationMod(n, offset, order);
    DistinctRecIff(order);
    order
  }

  lemma RotationMod(n: nat, offset: nat, order: seq<nat>)
    requires offset <= n && |order| == n
    requires forall k :: 0 <= k < n ==> order[k] == if k < n - offset then offset + k else k - (n - offset)
    ensures forall k :: 0 <= k < n ==> order[k] == (offset + k) % n
  {
    forall k | 0 <= k < n ensures order[k] == (offset + k) % n {
      ModOnce(offset + k, n);
    }
  }

  lemma ModOnce(x: int, n: int)
    requires 0 <= x < 2 * n
    ensures x % n == if x < n then x else x - n
  {
    if x < n {
      assert x == 0 * n + x;
    } else {
      assert x == 1 * n + (x - n);
    }
  }

  // ---------------------------------------------------------------------------
  // The state invariant

  /** What every reachable state of a game with at least one player satisfies. */
  predicate Valid(s: State) {
    var n := |s.players|;
    && n >= 1
    && s.maxHand >= 1
    && s.numRounds == 2 * s.maxHand - 1
    && s.roundHand == RoundHand(s.maxHand)
    && Ledger.Wellformed(s.tracker)
    && (forall p :: p in s.players ==> p in s.tracker.bidHistory)
    && |s.playerOrder| == n
    && (forall k :: 0 <= k < n ==> s.playerOrder[k] < n)
    && s.playerTurn <= n
    && 0 <= s.dealerIdx < n
    && (s.best.Some? ==> BestContends(s))
  }

  /** Every player is listed once and seated once. Kept apart from `Valid`
      because the operations never change the players and only ever replace the
      seat order by a rotation, which is a permutation. */
  predicate Seated(s: State) {
    DistinctRec(s.players) && DistinctRec(s.playerOrder)
  }

  /** `Seated` in pairwise form. */
  lemma SeatedPairwise(s: State)
    requires Seated(s)
    ensures Ledger.NoDuplicates(s.players) && Distinct(s.playerOrder)
  {
    DistinctRecIff(s.players);
    DistinctRecIff(s.playerOrder);
  }

  /** Once a trick has a best card, its ranking context is set up from the trump
      and leading suits, and the best card belongs to one of the two. */
  predicate BestContends(s: State)
    requires s.best.Some?
  {
    && HoldsSeat(s, s.best.value.idx)
    && s.leadingSuit.Some?
    && s.customRanks == TrickRanks(s.trumpSuit, s.leadingSuit.value)
    && (s.best.value.card.suit == s.leadingSuit.value || Some(s.best.value.card.suit) == s.trumpSuit)
  }

  /** The seat index of each player (`player2id`). */
  function SeatOf(s: State): map<Player, nat> {
    Ledger.Positions(s.players)
  }

  /** Seat `i` is a key of `id2player`, the inverse of `player2id`: the player
      seated there maps back to `i`. With a player listed twice only the later
      seat does, so the earlier one has no entry. */
  predicate HoldsSeat(s: State, i: int) {
    0 <= i < |s.players| && SeatOf(s)[s.players[i]] == i
  }

  // ---------------------------------------------------------------------------
  // Construction

  /** The largest hand: the given one, unless it is absent or zero, in which case
      as many cards as 51 allow for every player. */
  function ResolveMaxHand(n: nat, maxHandArg: Option<int>): int
    requires (maxHandArg.Some? && maxHandArg.value != 0) || n > 0
  {
    if maxHandArg.Some? && maxHandArg.value != 0 then maxHandArg.value else (TotalCards - 1) / n
  }

  /** A new game for `players`. It fails when the default hand size would divide by
      zero players, and when the largest hand is not positive (the ledger cannot
      allocate a negative number of rounds). */
  function Init(players: seq<Player>, maxHandArg: Option<int>): (r: Result<State>)
    ensures r.Success? <==>
      && ((maxHandArg.Some? && maxHandArg.value != 0) || |players| > 0)
      && ResolveMaxHand(|players|, maxHandArg) >= 1
    ensures r.Success? ==>
      var s := r.value;
      && s.maxHand == ResolveMaxHand(|players|, maxHandArg)
      && s.numRounds == 2 * s.maxHand - 1
      && s.roundHand == RoundHand(s.maxHand)
      && s.currRound == 0 && s.currTrick == 0 && s.currHandSize == 1
      && s.discard == [] && s.best.None? && s.playerTurn == 0
      && s.dealerIdx == |players| - 1
      && s.playerOrder == Rotation(|players|, 0)
    ensures r.Success? ==>
      var s := r.value;
      && s.players == players
      && Ledger.Init(players, s.numRounds) == Success(s.tracker)
      && s.bids == map[] && s.trickCards == map[] && s.customRanks == map[]
      && s.dealer.None? && s.trumpSuit.None? && s.leadingSuit.None?
  {
    var n := |players|;
    if (maxHandArg.None? || maxHandArg.value == 0) && n == 0 then Failure(ZeroDivisionError)
    else
      var maxHand := ResolveMaxHand(n, maxHandArg);
      var numRounds := maxHand * 2 - 1;
      match Ledger.Init(players, numRounds)
      case Failure(f) => Failure(f)
      case Success(tracker) =>
        var roundHand := RoundHand(maxHand);
        if |roundHand| == 0 then Failure(IndexError)
        else
          Success(State(players, maxHand, numRounds, roundHand, tracker, 0, 0, roundHand[0],
                        None, None, None, [], map[], map[], map[], None, Rotation(n, 0), 0, n - 1))
  }

  /** A new game with at least one player is valid, and its players are seated
      once each exactly when none is listed twice. */
  lemma InitValid(players: seq<Player>, maxHandArg: Option<int>)
    requires Init(players, maxHandArg).Success? && |players| > 0
    ensures Valid(Init(players, maxHandArg).value)
    ensures Seated(Init(players, maxHandArg).value) <==> Ledger.NoDuplicates(players)
  {
    var s := Init(players, maxHandArg).value;
    assert s.players == players;
    assert Ledger.Init(players, s.numRounds) == Success(s.tracker);
    DistinctRecIff(players);
  }

  /** Without an explicit largest hand, a game of n players uses 51 div n. */
  lemma DefaultMaxHand(players: seq<Player>)
    requires 1 <= |players| <= 51
    ensures Init(players, None).Success?
    ensures Init(players, None).value.maxHand == 51 / |players|
    ensures Init(players, None).value.numRounds == 2 * (51 / |players|) - 1
  {
  }

  // ---------------------------------------------------------------------------
  // Round and trick transitions

  /** Starts the current round: fixes the dealer and hand size, resets the trick
      counter, and seats the players starting at `curr_round mod n`. */
  function BeginRound(s: State): (r: Result<(State, int, Player)>)
    ensures r.Success? <==> 0 <= s.dealerIdx < |s.players| && s.currRound < |s.roundHand|
    ensures r.Success? ==>
      var (s', handSize, dealer) := r.value;
      var n := |s.players|;
      && dealer == s.players[s.dealerIdx]
      && handSize == s'.currHandSize == s.roundHand[s.currRound]
      && s'.currTrick == 0
      && IsSeatOrder(s'.playerOrder, n)
      && SeatsFrom(s'.playerOrder, s.currRound % n, n)
      && s' == s.(dealer := Some(dealer), currHandSize := handSize, currTrick := 0,
                  playerOrder := s'.playerOrder)
    ensures r.Success? && Valid(s) ==> Valid(r.value.0)
    ensures r.Success? && Seated(s) ==> Seated(r.value.0)
    ensures r.Success? && Valid(s) ==> r.value.1 == RoundHandAt(s.maxHand, s.currRound)
  {
    if !(0 <= s.dealerIdx < |s.players|) || s.currRound >= |s.roundHand| then Failure(IndexError)
    else
      var n := |s.players|;
      var dealer := s.players[s.dealerIdx];
      var handSize := s.roundHand[s.currRound];
      var s' := s.(dealer := Some(dealer), currHandSize := handSize, currTrick := 0,
                   playerOrder := Rotation(n, s.currRound % n));
      Success((s', handSize, dealer))
  }

  /** Reveals the trump card: its suit becomes trump and the card joins the discard pile. */
  function SetTrumpSuit(s: State, trumpCard: Card): (r: State)
    ensures r.trumpSuit == Some(trumpCard.suit)
    ensures r.discard == s.discard + [trumpCard]
    ensures r == s.(trumpSuit := r.trumpSuit, discard := r.discard)
    ensures Valid(s) && s.best.None? ==> Valid(r)
    ensures Seated(s) ==> Seated(r)
  {
    s.(trumpSuit := Some(trumpCard.suit), discard := s.discard + [trumpCard])
  }

  /** The players in the order they bid. */
  function GetBidOrder(s: State): (r: Result<seq<Player>>)
    ensures r.Success? <==> forall k :: 0 <= k < |s.playerOrder| ==> s.playerOrder[k] < |s.players|
    ensures r.Success? ==> |r.value| == |s.playerOrder|
    ensures r.Success? ==> forall k :: 0 <= k < |s.playerOrder| ==> r.value[k] == s.players[s.playerOrder[k]]
    ensures Valid(s) ==> r.Success?
    ensures Valid(s) && Seated(s) ==> forall p :: p in s.players <==> p in r.value
  {
    if exists k :: 0 <= k < |s.playerOrder| && !(s.playerOrder[k] < |s.players|) then Failure(IndexError)
    else
      var r := seq(|s.playerOrder|, k requires 0 <= k < |s.playerOrder| => s.players[s.playerOrder[k]]);
      assert Valid(s) && Seated(s) ==> forall p :: p in s.players ==> p in r by {
        if Valid(s) && Seated(s) {
          SeatedPairwise(s);
          SeatOrderCoversSeats(s.playerOrder, |s.players|);
          forall p | p in s.players ensures p in r {
            var i :| 0 <= i < |s.players| && s.players[i] == p;
            assert i in s.playerOrder;
            var k :| 0 <= k < |s.players| && s.playerOrder[k] == i;
            assert r[k] == p;
          }
        }
      }
      Success(r)
  }

  /** A seat order lists every seat: n distinct seats below n are all of them. */
  lemma SeatOrderCoversSeats(order: seq<nat>, n: nat)
    requires IsSeatOrder(order, n)
    ensures forall i :: 0 <= i < n ==> i in order
  {
    var seats: seq<nat> := seq(n, i requires 0 <= i => i);
    var seen := set k | 0 <= k < n :: order[k];
    var all := set k | 0 <= k < n :: seats[k];
    assert seen <= all by {
      forall k | 0 <= k < n ensures order[k] in all {
        assert seats[order[k]] == order[k];
      }
    }
    DistinctImageSize(order, n);
    DistinctImageSize(seats, n);
    SubsetOfEqualSize(seen, all);
    forall i | 0 <= i < n ensures i in order {
      assert seats[i] == i;
      assert i in all;
    }
  }

  lemma SubsetOfEqualSize<T>(a: set<T>, b: set<T>)
    requires a <= b && |a| == |b|
    ensures a == b
  {
    if a != b {
      var x :| x in b && x !in a;
      assert a <= b - {x};
      assert |b - {x}| == |b| - 1;
      SubsetSize(a, b - {x});
      assert false;
    }
  }

  lemma {:induction false} SubsetSize<T>(a: set<T>, b: set<T>)
    requires a <= b
    ensures |a| <= |b|
    decreases |a|
  {
    if a != {} {
      var x :| x in a;
      SubsetSize(a - {x}, b - {x});
    }
  }

  lemma {:induction false} DistinctImageSize(order: seq<nat>, m: nat)
    requires m <= |order|
    requires forall j, k :: 0 <= j < k < m ==> order[j] != order[k]
    ensures |set k | 0 <= k < m :: order[k]| == m
  {
    if m > 0 {
      DistinctImageSize(order, m - 1);
      var smaller := set k | 0 <= k < m - 1 :: order[k];
      assert (set k | 0 <= k < m :: order[k]) == smaller + {order[m - 1]};
      assert order[m - 1] !in smaller;
    }
  }

  /** Records a bid in the state and in the ledger. */
  function CollectBid(s: State, p: Player, bid: int): (r: Result<State>)
    ensures r.Success? <==> p in s.tracker.bidHistory
    ensures r.Success? ==> r.value.bids == s.bids[p := bid]
    ensures r.Success? ==> Ledger.CollectBid(s.tracker, p, bid) == Success(r.value.tracker)
    ensures r.Success? ==> r.value == s.(bids := r.value.bids, tracker := r.value.tracker)
    ensures r.Success? && Valid(s) ==> Valid(r.value)
    ensures r.Success? && Seated(s) ==> Seated(r.value)
  {
    match Ledger.CollectBid(s.tracker, p, bid)
    case Failure(f) => Failure(f)
    case Success(t) => Success(s.(bids := s.bids[p := bid], tracker := t))
  }

  /** Sets up the ranking context of a trick from its first card. */
  function SetupTrick(s: State, leadingCard: Card): (r: (State, Suit))
    ensures r.1 == leadingCard.suit
    ensures r.0.leadingSuit == Some(leadingCard.suit)
    ensures forall t: Suit :: t in r.0.customRanks && r.0.customRanks[t] == SuitRank(s.trumpSuit, leadingCard.suit, t)
    ensures r.0 == s.(leadingSuit := r.0.leadingSuit, customRanks := r.0.customRanks)
    ensures Valid(s) && s.best.None? ==> Valid(r.0)
    ensures Seated(s) ==> Seated(r.0)
  {
    (s.(leadingSuit := Some(leadingCard.suit), customRanks := TrickRanks(s.trumpSuit, leadingCard.suit)),
     leadingCard.suit)
  }

  /** Whether the player about to act leads the trick. */
  function OnLeadingPlayer(s: State): bool {
    s.playerTurn <= 1
  }

  /** Plays `card` for player `p`, returning the next state. The card joins the
      discard pile and the trick. The first card of a trick is best and sets up
      the ranking context; a later card becomes best only when it strictly beats
      the best so far, so ties keep the earlier card. */
  function PlayCard(s: State, p: Player, card: Card): (r: Result<State>)
    ensures p !in SeatOf(s) ==> r == Failure(KeyError)
    ensures Valid(s) && p in s.players ==> r.Success?
    ensures r.Success? ==>
      var s' := r.value;
      && p in SeatOf(s)
      && s'.discard == s.discard + [card]
      && s'.trickCards == s.trickCards[p := card]
      && s'.best.Some?
      && (s.best.None? ==>
            && s'.best == Some(Best(SeatOf(s)[p], card))
            && s'.leadingSuit == Some(card.suit)
            && s'.customRanks == TrickRanks(s.trumpSuit, card.suit))
      && (s.best.Some? ==>
            && Ranked(s.customRanks, card) && Ranked(s.customRanks, s.best.value.card)
            && s'.best == (if CardGt(card, s.best.value.card, s.customRanks)
                           then Some(Best(SeatOf(s)[p], card)) else s.best)
            && s'.leadingSuit == s.leadingSuit
            && s'.customRanks == s.customRanks)
      && s' == s.(discard := s'.discard, trickCards := s'.trickCards, best := s'.best,
                  leadingSuit := s'.leadingSuit, customRanks := s'.customRanks)
    ensures r.Success? && Valid(s) ==> Valid(r.value)
    ensures r.Success? && Seated(s) ==> Seated(r.value)
  {
    var seat := SeatOf(s);
    if p !in seat then Failure(KeyError)
    else
      var s1 := s.(discard := s.discard + [card], trickCards := s.trickCards[p := card]);
      var idx := seat[p];
      if s1.best.None? then
        Success(SetupTrick(s1.(best := Some(Best(idx, card))), card).0)
      else if !Ranked(s1.customRanks, card) || !Ranked(s1.customRanks, s1.best.value.card) then
        Failure(KeyError)
      else if CardGt(card, s1.best.value.card, s1.customRanks) then
        assert Valid(s) ==> card.suit == s.leadingSuit.value || Some(card.suit) == s.trumpSuit by {
          if Valid(s) {
            TrickRanksTiers(s.trumpSuit, s.leadingSuit.value, card.suit);
            TrickRanksTiers(s.trumpSuit, s.leadingSuit.value, s.best.value.card.suit);
          }
        }
        Success(s1.(best := Some(Best(idx, card))))
      else
        Success(s1)
  }

  /** Hands the turn to the next player of the trick, or reports that none is left. */
  function GetNextPlayer(s: State): (r: Result<(State, Option<Player>)>)
    ensures s.playerTurn >= |s.players| ==> r == Success((s, None))
    ensures s.playerTurn < |s.players| && s.playerTurn < |s.playerOrder| && !HoldsSeat(s, s.playerOrder[s.playerTurn]) ==>
      r == Failure(KeyError)
    ensures Valid(s) && Seated(s) ==> r.Success?
    ensures r.Success? && s.playerTurn < |s.players| ==>
      && s.playerTurn < |s.playerOrder| && HoldsSeat(s, s.playerOrder[s.playerTurn])
      && r.value == (s.(playerTurn := s.playerTurn + 1), Some(s.players[s.playerOrder[s.playerTurn]]))
    ensures r.Success? && Valid(s) ==> Valid(r.value.0)
    ensures r.Success? && Seated(s) ==> Seated(r.value.0)
  {
    if s.playerTurn >= |s.players| then Success((s, None))
    else if s.playerTurn >= |s.playerOrder| then Failure(IndexError)
    else
      assert Valid(s) && Seated(s) ==> HoldsSeat(s, s.playerOrder[s.playerTurn]) by {
        if Valid(s) && Seated(s) {
          SeatOfSeated(s, s.playerTurn);
        }
      }
      if !HoldsSeat(s, s.playerOrder[s.playerTurn]) then Failure(KeyError)
      else Success((s.(playerTurn := s.playerTurn + 1), Some(s.players[s.playerOrder[s.playerTurn]])))
  }

  /** With a player listed twice, `id2player` has no entry for the earlier seat,
      so asking for the player seated there fails. */
  lemma RepeatedPlayerEarlierSeat(s: State, j: nat)
    requires s.playerTurn < |s.players| && s.playerTurn < |s.playerOrder|
    requires s.playerOrder[s.playerTurn] < j < |s.players|
    requires s.players[j] == s.players[s.playerOrder[s.playerTurn]]
    ensures GetNextPlayer(s) == Failure(KeyError)
  {
    Ledger.PositionsKeepsLast(s.players);
    assert j <= SeatOf(s)[s.players[j]];
  }

  /** Ends a trick: the best player is credited with exactly one trick and leads the
      next one; the best card, ranking context and trick cards are cleared, the turn
      cursor returns to 0 and the trick counter advances. The leading suit is left
      as it was. It fails when no card has been played in the trick. */
  function FinishTrick(s: State): (r: Result<(State, Player)>)
    ensures s.best.None? ==> r == Failure(KeyError)
    ensures s.best.Some? && !HoldsSeat(s, s.best.value.idx) ==> r == Failure(KeyError)
    ensures Valid(s) && s.best.Some? ==> r.Success?
    ensures r.Success? ==>
      var (s', winner) := r.value;
      var idx := s.best.value.idx;
      && s.best.Some? && HoldsSeat(s, idx)
      && winner == s.players[idx]
      && Ledger.TrickTaken(s.tracker, winner) == Success(s'.tracker)
      && s'.playerOrder == Rotation(|s.players|, idx)
      && s'.playerOrder[0] == idx
      && s'.best.None? && s'.playerTurn == 0 && s'.currTrick == s.currTrick + 1
      && s'.trickCards == map[] && s'.customRanks == map[]
      && s' == s.(tracker := s'.tracker, playerOrder := s'.playerOrder, best := None,
                  customRanks := map[], trickCards := map[], playerTurn := 0,
                  currTrick := s'.currTrick)
    ensures r.Success? && Valid(s) ==> Valid(r.value.0)
    ensures r.Success? && Seated(s) ==> Seated(r.value.0)
  {
    if s.best.None? || !HoldsSeat(s, s.best.value.idx) then Failure(KeyError)
    else
      var idx := s.best.value.idx;
      var winner := s.players[idx];
      match Ledger.TrickTaken(s.tracker, winner)
      case Failure(f) => Failure(f)
      case Success(t) =>
        Success((s.(tracker := t, playerOrder := Rotation(|s.players|, idx), best := None,
                    customRanks := map[], trickCards := map[], playerTurn := 0,
                    currTrick := s.currTrick + 1), winner))
  }

  /** The bid a player made and the tricks it has taken. */
  function EndTrickInfo(s: State, p: Player): (r: Result<(int, nat)>)
    ensures r.Success? <==> p in s.bids && p in s.tracker.tricksTaken
    ensures r.Success? ==> r.value == (s.bids[p], s.tracker.tricksTaken[p])
  {
    if p !in s.bids || p !in s.tracker.tricksTaken then Failure(KeyError)
    else Success((s.bids[p], s.tracker.tricksTaken[p]))
  }

  /** Once a bid is collected, the player's end-of-trick information reports that
      bid and the tricks it had already taken. */
  lemma EndTrickInfoAfterBid(s: State, p: Player, bid: int)
    requires Ledger.Wellformed(s.tracker) && CollectBid(s, p, bid).Success?
    ensures p in s.tracker.tricksTaken
    ensures EndTrickInfo(CollectBid(s, p, bid).value, p) == Success((bid, s.tracker.tricksTaken[p]))
  {
  }

  /** Finishing a trick adds one to the winner's tricks in the end-of-trick
      information; every bid, and every other player's tricks, stay as they were. */
  lemma EndTrickInfoAfterTrick(s: State, p: Player)
    requires Valid(s) && s.best.Some? && EndTrickInfo(s, p).Success?
    ensures FinishTrick(s).Success?
    ensures var (s', winner) := FinishTrick(s).value;
      var (bid, taken) := EndTrickInfo(s, p).value;
      EndTrickInfo(s', p) == Success((bid, if p == winner then taken + 1 else taken))
  {
  }

  /** Ends a round: trump, leading suit and discard pile are cleared, the round
      counter advances, the ledger starts a new round and the dealer moves one seat
      on, wrapping to seat 0. The bids recorded in the state are kept. */
  function FinishRound(s: State): (r: (State, seq<Player>))
    ensures r.1 == s.players
    ensures r.0.discard == [] && r.0.trumpSuit.None? && r.0.leadingSuit.None? && r.0.dealer.None?
    ensures r.0.currRound == s.currRound + 1
    ensures r.0.tracker == Ledger.Reset(s.tracker)
    ensures 0 <= s.dealerIdx < |s.players| ==> r.0.dealerIdx == (s.dealerIdx + 1) % |s.players|
    ensures r.0 == s.(dealer := None, trumpSuit := None, leadingSuit := None, discard := [],
                      currRound := r.0.currRound, tracker := r.0.tracker, dealerIdx := r.0.dealerIdx)
    ensures Valid(s) && s.best.None? ==> Valid(r.0)
    ensures Seated(s) ==> Seated(r.0)
  {
    var d := s.dealerIdx + 1;
    assert 0 <= s.dealerIdx < |s.players| ==> (if d >= |s.players| then 0 else d) == d % |s.players| by {
      if 0 <= s.dealerIdx < |s.players| {
        ModOnce(d, |s.players|);
      }
    }
    (s.(dealer := None, trumpSuit := None, leadingSuit := None, discard := [],
        currRound := s.currRound + 1, tracker := Ledger.Reset(s.tracker),
        dealerIdx := if d >= |s.players| then 0 else d),
     s.players)
  }

  /** The scores of the round, for every player of the game: the ledger scores
      the round over the game's players and nothing else in the state changes. It
      fails when a player has not bid or the round is past the last one. */
  function CalculateScores(s: State): (r: Result<(State, map<Player, Ledger.Report>)>)
    ensures Ledger.Wellformed(s.tracker) ==>
      (r.Success? <==>
        && (forall p :: p in s.players ==> p in s.tracker.bidHistory && p in s.tracker.currBid)
        && (s.players != [] ==> s.tracker.currRound < s.tracker.numRounds))
    ensures r.Success? ==> Ledger.CalculateScores(s.tracker, s.players) == Success((r.value.0.tracker, r.value.1))
    ensures r.Success? ==> r.value.0 == s.(tracker := r.value.0.tracker)
    ensures r.Success? && Valid(s) ==> Valid(r.value.0)
    ensures r.Success? && Seated(s) ==> Seated(r.value.0)
  {
    assert Ledger.Wellformed(s.tracker) ==>
      (Ledger.CalculateScores(s.tracker, s.players).Success? <==>
        && (forall p :: p in s.players ==> p in s.tracker.bidHistory && p in s.tracker.currBid)
        && (s.players != [] ==> s.tracker.currRound < s.tracker.numRounds)) by {
      if Ledger.Wellformed(s.tracker) {
        Ledger.ScoreAllSucceeds(s.tracker, s.players, map[]);
      }
    }
    match Ledger.CalculateScores(s.tracker, s.players)
    case Failure(f) => Failure(f)
    case Success((t, out)) =>
      assert Valid(s) ==> Valid(s.(tracker := t)) by {
        if Valid(s) {
          Ledger.ScoreAllShape(s.tracker, s.players, map[]);
        }
      }
      Success((s.(tracker := t), out))
  }

  /** The scoreboard rows in the order of the given players: each player's own
      row, or a `KeyError` for a player the ledger does not know. */
  function GetScoreboard(s: State, players: seq<Player>): (r: Result<seq<seq<int>>>)
    requires Ledger.Wellformed(s.tracker)
    ensures r.Success? <==> forall p :: p in players ==> p in s.tracker.player2idx
    ensures r.Success? ==> |r.value| == |players|
    ensures r.Success? ==> forall i :: 0 <= i < |players| ==>
              r.value[i] == s.tracker.scoreboard[s.tracker.player2idx[players[i]]]
  {
    Ledger.GetScoreboard(s.tracker, players)
  }

  /** A new game with no player listed twice shows its scoreboard in the order of
      its players, with every cell 0. */
  lemma NewGameScoreboard(players: seq<Player>, maxHandArg: Option<int>)
    requires Init(players, maxHandArg).Success? && Ledger.NoDuplicates(players)
    ensures var s := Init(players, maxHandArg).value;
      && GetScoreboard(s, players) == Success(s.tracker.scoreboard)
      && |s.tracker.scoreboard| == |players|
      && forall i, c :: 0 <= i < |players| && 0 <= c < s.numRounds ==> s.tracker.scoreboard[i][c] == 0
  {
    var s := Init(players, maxHandArg).value;
    Ledger.ScoreboardInCreationOrder(players, s.numRounds, s.tracker);
  }

  // ---------------------------------------------------------------------------
  // The end of a round

  /** The terminal test as written: players times hand size equals the size of the
      discard pile. The pile also holds the revealed trump card, so this holds one
      play before the last card of the round is played. */
  predicate TerminalStateAsWritten(s: State) {
    |s.players| * s.currHandSize == |s.discard|
  }

  /** The number of trump cards revealed into the discard pile this round. */
  function RevealedCards(s: State): nat {
    if s.trumpSuit.Some? then 1 else 0
  }

  /** The terminal test the game needs: every card dealt this round has been played,
      counting the discard pile without the revealed trump card. */
  predicate TerminalState(s: State) {
    |s.players| * s.currHandSize + RevealedCards(s) == |s.discard|
  }

  // ---------------------------------------------------------------------------
  // One trick, turn by turn

  /** One turn of a trick: the next player in seat order plays `card`. A turn
      for which no player is left fails. */
  function PlayTurn(s: State, card: Card): Result<State> {
    match GetNextPlayer(s)
    case Failure(f) => Failure(f)
    case Success((s1, next)) =>
      if next.None? then Failure(IndexError) else PlayCard(s1, next.value, card)
  }

  /** The turns of a trick so far: `cards[k]` is played in the k-th turn. */
  function PlayTurns(s: State, cards: seq<Card>): Result<State>
    decreases |cards|
  {
    if cards == [] then Success(s)
    else
      match PlayTurns(s, cards[..|cards| - 1])
      case Failure(f) => Failure(f)
      case Success(s1) => PlayTurn(s1, cards[|cards| - 1])
  }

  /** A new trick: no card played and no player asked yet. */
  predicate FreshTrick(s: State) {
    Valid(s) && Seated(s) && s.playerTurn == 0 && s.best.None?
  }

  /** The trick cards once the k-th player in seat order has played `cards[k]`. */
  function TrickCards(s: State, cards: seq<Card>): map<Player, Card>
    requires Valid(s) && |cards| <= |s.players|
    decreases |cards|
  {
    if cards == [] then s.trickCards
    else
      var m := |cards| - 1;
      TrickCards(s, cards[..m])[s.players[s.playerOrder[m]] := cards[m]]
  }

  /** The state a trick started in `s` reaches after its first turns played
      `cards`: those cards are discarded in turn, the first one set the leading
      suit and ranking context, and the best card is the one `BestIndex` picks,
      held by the seat that played it. */
  function TrickState(s: State, cards: seq<Card>): State
    requires Valid(s) && 1 <= |cards| <= |s.players|
  {
    var b := BestIndex(cards, s.trumpSuit);
    s.(discard := s.discard + cards, trickCards := TrickCards(s, cards),
       best := Some(Best(s.playerOrder[b], cards[b])), leadingSuit := Some(cards[0].suit),
       customRanks := TrickRanks(s.trumpSuit, cards[0].suit), playerTurn := |cards|)
  }

  lemma TrickStateValid(s: State, cards: seq<Card>)
    requires FreshTrick(s) && 1 <= |cards| <= |s.players|
    ensures Valid(TrickState(s, cards)) && Seated(TrickState(s, cards))
  {
    SeatOfSeated(s, BestIndex(cards, s.trumpSuit));
  }

  lemma SeatOfSeated(s: State, k: nat)
    requires Valid(s) && Seated(s) && k < |s.players|
    ensures s.players[s.playerOrder[k]] in SeatOf(s)
    ensures SeatOf(s)[s.players[s.playerOrder[k]]] == s.playerOrder[k]
  {
    SeatedPairwise(s);
    Ledger.PositionsOfDistinct(s.players);
  }

  /** The turn after `m` cards of a trick: player `m` in seat order plays. */
  lemma TurnOfSeat(s1: State, c: Card, m: nat)
    requires Valid(s1) && s1.playerTurn == m < |s1.players|
    requires HoldsSeat(s1, s1.playerOrder[m])
    ensures var p := s1.players[s1.playerOrder[m]];
      && PlayCard(s1.(playerTurn := m + 1), p, c).Success?
      && PlayTurn(s1, c) == PlayCard(s1.(playerTurn := m + 1), p, c)
  {
    var asked := s1.(playerTurn := m + 1);
    assert GetNextPlayer(s1) == Success((asked, Some(s1.players[s1.playerOrder[m]])));
    assert SeatOf(asked) == SeatOf(s1);
  }

  lemma TrickFirstTurn(s: State, c: Card)
    requires FreshTrick(s)
    ensures PlayTurn(s, c) == Success(TrickState(s, [c]))
  {
    assert [c][..0] == [];
    assert TrickCards(s, [c]) == s.trickCards[s.players[s.playerOrder[0]] := c];
    assert BestIndex([c], s.trumpSuit) == 0;
    SeatOfSeated(s, 0);
    TurnOfSeat(s, c, 0);
  }

  lemma TrickNextTurn(s: State, cards: seq<Card>)
    requires FreshTrick(s) && 2 <= |cards| <= |s.players|
    ensures var m := |cards| - 1;
      PlayTurn(TrickState(s, cards[..m]), cards[m]) == Success(TrickState(s, cards))
  {
    var m := |cards| - 1;
    var c := cards[m];
    var s1 := TrickState(s, cards[..m]);
    TrickStateValid(s, cards[..m]);
    SeatOfSeated(s, m);
    assert SeatOf(s1) == SeatOf(s);
    TurnOfSeat(s1, c, m);
    BestAfterTurn(s, cards);
    AppendLast(s.discard, cards);
  }

  lemma TrickFirstTurns(s: State, cards: seq<Card>)
    requires FreshTrick(s) && |cards| == 1
    ensures PlayTurns(s, cards) == Success(TrickState(s, cards))
  {
    assert cards[..0] == [];
    assert cards == [cards[0]];
    TrickFirstTurn(s, cards[0]);
  }

  lemma AppendLast<T>(xs: seq<T>, ys: seq<T>)
    requires |ys| >= 1
    ensures xs + ys[..|ys| - 1] + [ys[|ys| - 1]] == xs + ys
  {
    assert ys[..|ys| - 1] + [ys[|ys| - 1]] == ys;
  }

  /** The best card after one more turn is the one `BestIndex` picks. */
  lemma BestAfterTurn(s: State, cards: seq<Card>)
    requires 2 <= |cards|
    ensures var m := |cards| - 1;
      var b := BestIndex(cards[..m], s.trumpSuit);
      var r := TrickRanks(s.trumpSuit, cards[0].suit);
      && cards[..m][0] == cards[0] && cards[..m][b] == cards[b]
      && BestIndex(cards, s.trumpSuit) == if CardGt(cards[m], cards[b], r) then m else b
  {
  }

  /** Playing the first `|cards|` turns of a fresh trick succeeds and reaches
      `TrickState(s, cards)`. */
  lemma {:induction false} PlayTurnsSpec(s: State, cards: seq<Card>)
    requires FreshTrick(s) && 1 <= |cards| <= |s.players|
    ensures PlayTurns(s, cards) == Success(TrickState(s, cards))
    decreases |cards|
  {
    if |cards| == 1 {
      TrickFirstTurns(s, cards);
    } else {
      PlayTurnsSpec(s, cards[..|cards| - 1]);
      TrickNextTurn(s, cards);
    }
  }

  /** `on_leading_player` for the player just handed the turn holds exactly when
      it is the first player of the trick. `get_next_player` has already moved the
      turn cursor past the player it returns, hence the test `<= 1`; before that
      call the test also holds once the first card is down. */
  lemma LeaderIsFirstAsked(s: State, cards: seq<Card>)
    requires FreshTrick(s) && |cards| < |s.players|
    ensures PlayTurns(s, cards).Success?
    ensures var s1 := PlayTurns(s, cards).value;
      && (OnLeadingPlayer(s1) <==> |cards| <= 1)
      && GetNextPlayer(s1).Success?
      && GetNextPlayer(s1).value.1 == Some(s.players[s.playerOrder[|cards|]])
      && (OnLeadingPlayer(GetNextPlayer(s1).value.0) <==> cards == [])
  {
    var s1 := s;
    if cards != [] {
      PlayTurnsSpec(s, cards);
      TrickStateValid(s, cards);
      s1 := TrickState(s, cards);
    }
    assert PlayTurns(s, cards) == Success(s1) && Valid(s1) && Seated(s1);
    assert s1.playerTurn == |cards| && s1.players == s.players && s1.playerOrder == s.playerOrder;
  }

  /** With every player seated once, the k-th player in seat order holds `cards[k]`
      in the trick: no later turn overwrites an earlier one. */
  lemma {:induction false} TrickCardsOfSeats(s: State, cards: seq<Card>)
    requires Valid(s) && Seated(s) && |cards| <= |s.players|
    ensures forall k :: 0 <= k < |cards| ==>
      s.players[s.playerOrder[k]] in TrickCards(s, cards) &&
      TrickCards(s, cards)[s.players[s.playerOrder[k]]] == cards[k]
    decreases |cards|
  {
    if cards != [] {
      var m := |cards| - 1;
      var p := s.players[s.playerOrder[m]];
      var prev := TrickCards(s, cards[..m]);
      assert TrickCards(s, cards) == prev[p := cards[m]];
      TrickCardsOfSeats(s, cards[..m]);
      SeatedPairwise(s);
      forall k | 0 <= k < |cards|
        ensures s.players[s.playerOrder[k]] in TrickCards(s, cards)
        ensures TrickCards(s, cards)[s.players[s.playerOrder[k]]] == cards[k]
      {
        if k < m {
          assert s.playerOrder[k] != s.playerOrder[m];
          assert s.players[s.playerOrder[k]] != p;
          assert cards[..m][k] == cards[k];
        }
      }
    }
  }

  /** Once every player has played one card, no player is left to ask, and
      finishing the trick credits exactly one trick to whoever played the card
      `BestIndex` picks; that player leads the next trick. */
  lemma TrickWinner(s: State, cards: seq<Card>)
    requires FreshTrick(s) && |cards| == |s.players|
    ensures PlayTurns(s, cards).Success?
    ensures var s' := PlayTurns(s, cards).value;
      var seat := s.playerOrder[BestIndex(cards, s.trumpSuit)];
      && GetNextPlayer(s') == Success((s', None))
      && FinishTrick(s').Success?
      && FinishTrick(s').value.1 == s.players[seat]
      && Ledger.TrickTaken(s.tracker, s.players[seat]) == Success(FinishTrick(s').value.0.tracker)
      && FinishTrick(s').value.0.playerOrder[0] == seat
  {
    PlayTurnsSpec(s, cards);
    TrickStateValid(s, cards);
  }

  // ---------------------------------------------------------------------------
  // The end of a round, turn by turn

  /** The last trick of a round starts with every earlier card of the round, and
      the revealed trump card, in the discard pile. */
  predicate LastTrickOfRound(s: State) {
    && FreshTrick(s)
    && |s.discard| + |s.players| == RevealedCards(s) + |s.players| * s.currHandSize
  }

  /** What the terminal tests look at after the first turns of a fresh trick. */
  lemma TurnsCount(s: State, cards: seq<Card>)
    requires FreshTrick(s) && 1 <= |cards| <= |s.players|
    ensures PlayTurns(s, cards).Success?
    ensures var s' := PlayTurns(s, cards).value;
      && |s'.discard| == |s.discard| + |cards|
      && s'.players == s.players && s'.currHandSize == s.currHandSize
      && s'.trumpSuit == s.trumpSuit && s'.playerTurn == |cards|
      && (TerminalState(s') <==> |s.players| * s.currHandSize + RevealedCards(s) == |s.discard| + |cards|)
  {
    PlayTurnsSpec(s, cards);
  }

  /** The corrected terminal test holds after the last turn of the last trick of a
      round and after no earlier turn of that trick. */
  lemma TerminalOnlyAtLastCard(s: State, cards: seq<Card>, k: nat)
    requires LastTrickOfRound(s) && |cards| == |s.players| && 1 <= k <= |cards|
    ensures PlayTurns(s, cards[..k]).Success?
    ensures TerminalState(PlayTurns(s, cards[..k]).value) <==> k == |cards|
  {
    TurnsCount(s, cards[..k]);
    CountsMatch(|s.players|, s.currHandSize, RevealedCards(s), |s.discard|, k);
  }

  /** A discard pile holding `revealed` cards and `n * (h - 1)` played ones holds
      `revealed + n * h` cards exactly when `n` more are played. */
  lemma CountsMatch(n: int, h: int, revealed: int, pile: int, k: int)
    requires pile + n == revealed + n * h
    ensures n * h + revealed == pile + k <==> k == n
  {
  }

  /** The terminal test as written already holds when one turn of the last trick
      is left: with a trump card revealed, the discard pile reaches players times
      hand size before the last player in seat order has played. */
  lemma TerminalAsWrittenOneTurnEarly(s: State, cards: seq<Card>)
    requires LastTrickOfRound(s) && s.trumpSuit.Some? && |cards| == |s.players|
    ensures PlayTurns(s, cards[..|cards| - 1]).Success?
    ensures var s' := PlayTurns(s, cards[..|cards| - 1]).value;
      && TerminalStateAsWritten(s')
      && !TerminalState(s')
      && s'.playerTurn == |s.players| - 1
  {
    var n := |s.players|;
    if n == 1 {
      assert cards[..0] == [];
    } else {
      TurnsCount(s, cards[..n - 1]);
    }
  }
}
