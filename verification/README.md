# Oh Hell engine — a Dafny model

This project models the rule-driven core of an Oh Hell card-game engine. Oh Hell is a trick-taking game. Each round every player bids the exact number of tricks they expect to take. Trump beats the leading suit, which beats the other suits, and a player who makes the bid exactly earns a bonus of 10 points.

The model covers these parts of the engine:

- **Cards** (`cards.dfy`): cards and the 52-card deck, plus the hand operations the game relies on: taking a card out by name, the cards of one suit, and the follow-suit candidates.
- **Ranking** (`ranking.dfy`): the per-trick ranking context and the `card_gt` comparison, with the best card of a trick given as a reference definition (`BestIndex`).
- **Ledger** (`ledger.dfy`): the score ledger of `TrickTracker`. It records bids and tricks taken, applies the exact-bid bonus, keeps a cumulative scoreboard, resets per round and reorders scoreboard rows.
- **GameState** (`game_state.dfy`): the round state machine of `GameState`, covering:
  - the rising-then-falling hand-size schedule;
  - seat rotation per round and per trick;
  - bid collection;
  - playing a card and tracking the best card;
  - the turn cursor;
  - the trick and round transitions;
  - the terminal test.

  Each trick is also related, turn by turn, to the reference definitions in `Ranking`.
- **RandomPlayer** (`player.dfy`): the random agent of `Player.py`. It models the weighted bid list, the dealer's hook exclusion, the follow-suit card draw and the memory of observed tricks.
- **Lookahead** (`lookahead.dfy`): the deterministic lookahead players of `STS.py` (depth-bounded) and `AlphaBeta.py` (unbounded). Both use the recursive arg-max over closed-form immediate scores. The unbounded search is proved equal to the depth-bounded one at unlimited depth.
- **Mcts** (`mcts.dfy`): the non-random skeleton of `PlayerMCTS.py`, covering:
  - the node arena with its parent and child links and its win/visit counters;
  - root construction;
  - frontier pruning;
  - selection with UCT's infinite priority for unvisited nodes;
  - backpropagation;
  - the `next_move` arg-max;
  - the simulated players' card draw;
  - the pool of unseen cards.

Python exceptions (`KeyError`, `IndexError`, `ValueError`, `ZeroDivisionError`) become `Failure` values of `Wrappers.Result`. Mutable objects become immutable values, and every mutating method becomes a function that returns the next value.

Scores of the lookahead players are exact integers in units of 1/52: a trump card scores 39 + v, a card of the leading suit 26 + v, and any other card 0, where v is the value rank from 1 (two) to 13 (ace).

Every random choice is a `pick: nat` parameter. The element chosen is `candidates[pick % |candidates|]`, and a lemma shows that every candidate can be reached.

## Model

| member | source | states |
|---|---|---|
| Cards.ValueRank | GameState.py:15-16 | Ranks run from 1 to 13; only the ace ranks 13 and only the two ranks 1 |
| Cards.ValueRankIsPosition | GameState.py:15-16 | The value table lists the thirteen values in increasing rank, one step apart |
| Cards.ValueRankInjective | GameState.py:15-16 | Two values share a rank exactly when they are the same value |
| Cards.Deck | PlayerMCTS.py:144 | A fresh deck holds 52 distinct cards and every card |
| Cards.Without | PlayerMCTS.py:167-168 | Taking a card out by name keeps exactly the other cards, shortens a hand that held it, leaves a hand without it untouched, and keeps a distinct hand distinct with one card fewer |
| Cards.FollowSuitCandidates | Player.py:53-58 | With a leading suit that the hand holds, the candidates are exactly the hand's cards of that suit; otherwise they are the whole hand; never empty for a non-empty hand |
| Ranking.TrickRanks | GameState.py:117-121 | Every suit is ranked, with the rank `SuitRank` assigns from trump and lead |
| Ranking.TrickRanksTiers | GameState.py:117-121 | A suit ranks 3 iff it is trump, 2 iff it leads and is not trump, 1 otherwise |
| Ranking.CardGtStrictOrder | GameState.py:138-142 | `card_gt` is irreflexive, asymmetric and transitive |
| Ranking.CardGtTotalOnContenders | GameState.py:138-142 | Two distinct cards of which one is of the leading or trump suit are always ordered one way or the other |
| Ranking.OffSuitTie | GameState.py:138-142 | Two off-suit cards of equal value but different suits are ordered neither way |
| Ranking.BestIndex | GameState.py:149-155 | The best card of a trick beats every earlier card strictly, is not beaten by any later card, and is of the leading or trump suit |
| Ledger.Positions | TrickTracker.py:27-31 | Every listed player has a row index that points back at that player |
| Ledger.PositionsOfDistinct | TrickTracker.py:27-31 | With no player listed twice, each player's row is its position in the list |
| Ledger.PositionsKeepsLast | GameState.py:59-60 | A player listed twice keeps its last position, so no position of a player comes after its own entry |
| Ledger.Init | TrickTracker.py:13-35 | A new ledger is well formed and has empty histories, no current bids, zero tricks and an all-zero scoreboard of players × rounds; a negative round count fails as numpy does |
| Ledger.CollectBid | TrickTracker.py:37-44 | The bid is appended to that player's history and becomes its current bid; an unknown player is a `KeyError`; nothing else changes |
| Ledger.TrickTaken | TrickTracker.py:46-51 | Only the named player's counter rises, by one; an unknown player is a `KeyError` |
| Ledger.RoundPoints | TrickTracker.py:62-66 | A round is worth the tricks taken, plus 10 exactly when the tricks equal the bid |
| Ledger.ScorePlayerSpec | TrickTracker.py:61-72 | One scoring step fails iff the player is unknown or has not bid; otherwise it touches only that player's history entry and scoreboard row |
| Ledger.ScoreAllSucceeds | TrickTracker.py:53-74 | Scoring succeeds iff every listed player is known, has bid, and the round is within the scoreboard |
| Ledger.ScoreAllShape | TrickTracker.py:53-74 | Scoring keeps the ledger's shape and changes only the trick histories and the scoreboard |
| Ledger.ScoreAllHistory | TrickTracker.py:61-63 | With no player listed twice, each listed player's trick history gains exactly one entry, the tricks it took; unlisted players keep theirs |
| Ledger.ScoreAllReport | TrickTracker.py:64 | With no player listed twice, the report holds each listed player's tricks and bid and keeps earlier entries of unlisted players |
| Ledger.ScoreAllBoard | TrickTracker.py:68-72 | With no player listed twice, each listed player's row gets the round points in round 0 and the points plus the previous cell later; other rows are untouched |
| Ledger.ScoresNeverDecrease | TrickTracker.py:69-72 | With no player listed twice, a player's cumulative cell for the round is at least the previous round's cell |
| Ledger.Reset | TrickTracker.py:76-85 | The round counter advances, current bids are dropped, every known player's tricks return to 0, and the histories and scoreboard stay |
| Ledger.GetScoreboard | TrickTracker.py:87-97 | Row i of the result is the scoreboard row of the i-th requested player; an unknown player is a `KeyError` |
| Ledger.ScoreboardInCreationOrder | TrickTracker.py:87-97 | Asked in creation order without repeats, the scoreboard comes back unchanged |
| GameState.BuildRoundHand | GameState.py:36-44 | The loop's schedule has 2·max − 1 rounds, rising by one from 1 up to max and ending at 1 |
| GameState.FiveCardSchedule | GameState.py:32-44 | A five-card maximum gives the rounds 1,2,3,4,5,4,3,2,1 |
| GameState.Rotation | GameState.py:76-78 | The rotation from an offset is a permutation of the seats that starts at offset mod n |
| GameState.RotationMod | GameState.py:76-78 | Seat k of the rotation is (offset + k) mod n |
| GameState.Init | GameState.py:19-66 | A new game resolves the largest hand, schedules 2·max − 1 rounds and starts at round 0 with hand size 1, an empty discard pile, no best card, turn 0 and the last seat dealing; it fails when there are no players and no hand size (division by zero) or when the largest hand is below 1 (a negative scoreboard size). The players are kept as given, the ledger is the one built for them and the round count, and bids, trick cards, ranks, dealer, trump and leading suit all start empty |
| GameState.InitValid | GameState.py:19-66 | A new game with players is valid, and its players are seated once each exactly when none is listed twice |
| GameState.DefaultMaxHand | GameState.py:28-32 | Without an explicit largest hand, n players get 51 div n cards and 2·(51 div n) − 1 rounds |
| GameState.BeginRound | GameState.py:68-79 | The dealer is the seat at the dealer index, the hand size comes from the schedule, the trick counter resets and the order is a permutation of the seats starting at round mod n; nothing else changes |
| GameState.SetTrumpSuit | GameState.py:81-87 | Trump becomes the card's suit and the card joins the discard pile; nothing else changes |
| GameState.GetBidOrder | GameState.py:89-94 | The bid order lists the players by the seat order and, in a valid seated game, holds every player |
| GameState.SeatOrderCoversSeats | GameState.py:94 | n distinct seats below n are all the seats |
| GameState.CollectBid | GameState.py:96-103 | The bid is stored in the state's bids and recorded in the ledger; nothing else changes |
| GameState.SetupTrick | GameState.py:111-123 | The leading suit is the card's suit and every suit gets its trick rank; nothing else changes |
| GameState.PlayCard | GameState.py:131-156 | The card joins the discard pile and the trick; the first card is best and sets up the ranks; a later card becomes best only when `card_gt` holds strictly; an unseated player is a `KeyError`; validity is kept |
| GameState.GetNextPlayer | GameState.py:176-185 | Once every player has been asked, no player is returned and nothing changes. Otherwise the next player in seat order is returned and the turn cursor advances by one, provided the seat is a key of `id2player`; a seat that is not, as the earlier seat of a player listed twice, is a `KeyError`. In a valid game with every player seated once the call always succeeds |
| GameState.RepeatedPlayerEarlierSeat | GameState.py:59-60 | When the player to ask is also listed at a later position, asking for it is a `KeyError` |
| GameState.LeaderIsFirstAsked | GameState.py:125-129 | In a trick, the player just handed the turn is the leading player exactly when no card has been played yet; before that call the test also holds after the first card |
| GameState.FinishTrick | GameState.py:158-174 | The best player is credited with one trick and leads the next order; best card, ranks and trick cards are cleared, the turn resets and the trick counter advances; without a best card, or when the best card's seat is not a key of `id2player`, it is a `KeyError` |
| GameState.EndTrickInfoAfterBid | GameState.py:187-194 | After a bid is collected, the player's information reports that bid and the tricks already taken |
| GameState.EndTrickInfoAfterTrick | GameState.py:187-194 | After a trick is finished, the winner's tricks in the information rise by one; every bid and every other player's tricks stay |
| GameState.FinishRound | GameState.py:196-210 | Dealer, trump, leading suit and discard are cleared, the round advances, the ledger resets and the dealer index moves one seat on, modulo n |
| GameState.CalculateScores | GameState.py:218-222 | Scoring the round over the game's players succeeds iff each has bid and the round is within the scoreboard; the ledger is scored as `Ledger.ScoreAll*` state, nothing else in the state changes, and validity is kept |
| GameState.GetScoreboard | GameState.py:224-230 | Row i of the result is the scoreboard row of the i-th requested player; a player the ledger does not know is a `KeyError` |
| GameState.NewGameScoreboard | GameState.py:224-230 | A new game with no player listed twice shows its all-zero scoreboard in the order of its players |
| GameState.TrickStateValid | GameState.py:131-156 | Every state a trick passes through is valid and seated |
| GameState.PlayTurnsSpec | GameState.py:131-185 | Asking the next player and playing their card, turn by turn, reaches the state that holds the cards so far, with the `BestIndex` card as best |
| GameState.TrickCardsOfSeats | GameState.py:146 | The k-th player in seat order holds the k-th card of the trick |
| GameState.TrickWinner | GameState.py:163-173 | After every player has played once, no player is left to ask, and the player of the `BestIndex` card takes the trick and leads next |
| GameState.TurnsCount | GameState.py:212-216 | After k turns the discard pile has grown by k and the terminal test compares it with players × hand size plus the revealed trump card |
| GameState.TerminalOnlyAtLastCard | GameState.py:212-216 | In the last trick of a round, the corrected terminal test holds after the last turn and after no earlier turn |
| GameState.TerminalAsWrittenOneTurnEarly | GameState.py:212-216 | With a trump card revealed, the terminal test as written already holds with one player of the last trick still to play |
| RandomPlayer.CountPositive | Player.py:40 | A bid is in the list exactly when it occurs in it at least once |
| RandomPlayer.RepeatCount | Player.py:34 | A block of n copies of one bid holds that bid n times and no other bid |
| RandomPlayer.BidBlocksCount | Player.py:33-34 | From block i on, bid b occurs 3(h − b) + 1 times for b from 0 to h − i, and never otherwise |
| RandomPlayer.BidDistCounts | Player.py:27-34 | Bid b occurs exactly 3(h − b) + 1 times, the list holds exactly the bids 0..h, and every lower bid is strictly more frequent |
| RandomPlayer.Drop | Player.py:40 | Filtering removes every occurrence of the bad bid and keeps every other bid's count |
| RandomPlayer.BidsOutUpdate | Player.py:37 | Summing the bids with the dealer's own bid set to v gives the others' sum plus v |
| RandomPlayer.BidsOutWithout | Player.py:37 | The sum of bids over the seats ignores entries for absent players |
| RandomPlayer.Allowed | Player.py:33-40 | The bids the list can yield are exactly 0..h, without the bad bid for the dealer |
| RandomPlayer.ChooseBid | Player.py:33-41 | The sampled bid lies in 0..h and, for the dealer, differs from the bad bid; the sample fails with `ValueError` only for a dealer with no cards whose bad bid is 0 |
| RandomPlayer.ChooseBidReachable | Player.py:33-41 | Some pick yields bid b exactly when b is allowed |
| RandomPlayer.MakeBidAsWritten | Player.py:25-42 | The bid as written: the memory is cleared and the bid is drawn against the bad bid computed from all stored bids |
| RandomPlayer.MakeBid | Player.py:25-42 | The corrected bid: the memory is cleared; the bid is the sample drawn against the dealer's bad bid over the other participants' bids, between 0 and the hand size; it fails with `ValueError` only for a dealer with no cards whose bad bid is 0; and a dealer's bid never makes the bids add up to the hand size |
| RandomPlayer.BadBidAsWrittenCountsOwnBid | Player.py:35-40 | The bad bid as written is the dealer's bad bid lowered by the dealer's own bid on record |
| RandomPlayer.BidsOutCountsEverySeat | Player.py:37 | The sum along the seating list counts a player listed twice once per seat |
| RandomPlayer.BidsOutTwoSeats | Player.py:37 | The sum over two seats |
| RandomPlayer.AllowedTwoCardsBarringOne | Player.py:33-40 | With two cards and bad bid 1, the dealer's first allowed bid is 2 |
| RandomPlayer.DealerHookAsWrittenCountsStaleBid | Player.py:35-40 | Given a stale bid left from the previous round, the dealer as written can bid so that the bids add up to the hand size; the corrected bid never does |
| RandomPlayer.Draw | Player.py:44-61 | The drawn card comes from the hand and, when the hand can follow the leading suit, is of that suit; the rest of the hand is every other card; an empty hand is a `ValueError` |
| RandomPlayer.DrawReachable | Player.py:53-59 | Every follow-suit candidate, and only those, can be drawn |
| RandomPlayer.PlayCard | Player.py:44-61 | The card played is a follow-suit candidate from the hand, of the leading suit whenever the hand holds it; the hand keeps exactly the other cards, one fewer for a distinct hand; the memory is kept; an empty hand is a `ValueError` |
| RandomPlayer.Observe | Player.py:63-67 | Observing appends exactly one entry to the memory and keeps the hand |
| RandomPlayer.ObserveAllAppends | Player.py:63-67 | Observing a series of tricks appends them in order |
| RandomPlayer.MemorySinceBid | Player.py:32 | After a bid, the memory holds exactly the tricks observed since |
| Lookahead.Immediate | STS.py:47-54 | A card scores 0 iff it is off the leading suit and not trump; a trump card scores 39 + v (at least 40); a following card 26 + v (27..39); with no lead no card scores 0 |
| Lookahead.TrumpBeatsNonTrump | STS.py:51-54 | Every trump card scores strictly more than every non-trump card |
| Lookahead.Explore | STS.py:37-65 | The card the depth-bounded search returns is from the hand |
| Lookahead.FirstMax | STS.py:64 | The first index of the largest score |
| Lookahead.Levels | STS.py:56 | The number of levels the search adds up: the hand size, capped by the depth when bounded, and never below 1 |
| Lookahead.Pick | STS.py:64 | The card chosen is one of the cards |
| Lookahead.PickSpec | STS.py:64 | `max` over the scored cards succeeds iff there are cards and every score succeeds; it then returns a card whose score bounds every score, and no earlier card reaches it |
| Lookahead.ExploreSucceeds | STS.py:37-65 | The search succeeds iff the hand is non-empty and every card's score succeeds |
| Lookahead.ExploreWhenAllScored | STS.py:37-65 | A non-empty hand whose every card scores is searched successfully |
| Lookahead.ExploreSpec | STS.py:37-65 | A successful search returns the first card whose score is the largest of all the cards' scores, with that score |
| Lookahead.BestOverSuitsSpec | STS.py:59-62 | The recursive term is the largest search score over the four suits as lead |
| Lookahead.ExploreBounded | STS.py:52-62 | With distinct cards the search succeeds, and its score lies between 0 and 52 times the levels it adds up |
| Lookahead.CardScoreBounded | STS.py:47-62 | One card's score lies between 0 and 52 times the levels |
| Lookahead.BestOverSuitsBounded | STS.py:59-62 | The recursive term lies between 0 and 52 times the levels below |
| Lookahead.ExploreGreedy | STS.py:56 | At depth 1 or with one card, the result is the first card of largest immediate score, with that score |
| Lookahead.DeepEnoughIsUnbounded | STS.py:56 | A depth of at least the hand size searches exactly as an unbounded one |
| Lookahead.ScoresDeepEnough | STS.py:56-62 | With a depth of at least the hand size, every card scores as in the unbounded search |
| Lookahead.CardScoreDeepEnough | STS.py:47-62 | With a depth of at least the hand size, one card's score, recursive term included, is its unbounded score |
| Lookahead.BestDeepEnough | STS.py:59-62 | With a depth of at least the hand size, the best over the leading suits is the unbounded one |
| Lookahead.LevelsMonotone | STS.py:56 | More cards never mean fewer levels |
| Lookahead.ExploreAll | AlphaBeta.py:22-42 | The card the unbounded search returns is from the hand |
| Lookahead.AlphaBetaIsUnboundedSts | AlphaBeta.py:22-42 | The unbounded search is the depth-bounded one at unlimited depth |
| Lookahead.ScoresAllIsUnbounded | AlphaBeta.py:24-39 | Card by card, the unbounded scores are the depth-bounded ones at unlimited depth |
| Lookahead.CardScoreAllIsUnbounded | AlphaBeta.py:24-39 | One card's unbounded score is its depth-bounded score at unlimited depth |
| Lookahead.BestAllIsUnbounded | AlphaBeta.py:36-39 | The unbounded recursive term is the depth-bounded one at unlimited depth |
| Lookahead.DealerMayMatchTricks | STS.py:24-25 | A lookahead dealer ignores the dealer's restriction: with every other bid 0 its bid is exactly the barred one and brings the bids up to the number of tricks |
| Lookahead.PlayCard | STS.py:27-35 | The card played is the search's card, taken out of the hand; a distinct non-empty hand always plays and loses exactly that card |
| Lookahead.PlayCardAll | AlphaBeta.py:17-20 | The unbounded player plays as the depth-bounded one at unlimited depth |
| Lookahead.LookaheadMayNotFollowSuit | STS.py:47-54 | A hand that could follow the leading suit may still play a trump card |
| Mcts.AddChild | PlayerMCTS.py:62-73 | A new child is appended with no children, zero counters, one level below its parent; the parent lists it; every other node is unchanged; links and counters stay sound |
| Wrappers.CollectSpec | PlayerMCTS.py:166-170 | Building the children succeeds iff every outcome does, keeps their order, and otherwise reports the first failure |
| Mcts.ChildStates | PlayerMCTS.py:166-169 | One successor state per card in hand, each the state after the searcher plays that card; fails iff some card cannot be played |
| Mcts.BuildRoot | PlayerMCTS.py:154-172 | The root holds the hand and state and has one child per card, in hand order; each child holds the hand without its card, has that card as action and is the searcher's move; exactly the children with cards left enter the frontier |
| Mcts.BuildTree | PlayerMCTS.py:162-172 | Given the successor states, the tree has the root and one child per card with sound links and counters |
| Mcts.RootFrontier | PlayerMCTS.py:171-172 | With one card in hand the frontier is empty; with more distinct cards every child is in it |
| Mcts.FirstBest | PlayerMCTS.py:179-188 | The first index of the largest ratio |
| Mcts.NextMove | PlayerMCTS.py:174-188 | The action of the first child with the best win ratio, unvisited children counting 0; an `IndexError` when the root has no children |
| Mcts.FirstBestUnique | PlayerMCTS.py:179-188 | An index at least every value and strictly above all earlier values is the first best |
| Mcts.UpdateFrontier | PlayerMCTS.py:190-197 | Exactly the frontier nodes with as many children as cards leave the frontier; the others stay, in order |
| Mcts.UpdateFrontierIdempotent | PlayerMCTS.py:190-197 | Pruning a pruned frontier changes nothing |
| Mcts.Uct | PlayerMCTS.py:90-91 | The priority is infinite exactly when the node has neither won nor been visited |
| Mcts.AboveStrictTotal | PlayerMCTS.py:232 | `score > best_score` on priorities is a strict total order |
| Mcts.Selection | PlayerMCTS.py:217-235 | No node on an empty frontier; otherwise a frontier node strictly above the first and every open node before it and not below any open node after it, a node being open when the terminal test as written does not hold of its state |
| Mcts.SelectedPrefersUnvisited | PlayerMCTS.py:228-234 | When an open unvisited node follows the first, the selected node has infinite priority |
| Mcts.OnPathBelow | PlayerMCTS.py:326-330 | Every node on the path from a node to the root precedes it |
| Mcts.Propagate | PlayerMCTS.py:325-330 | Every node on the path to the root gets one more visit, and one more win when won on the searcher's move; other nodes are unchanged |
| Mcts.OnPathSameLinks | PlayerMCTS.py:326-330 | The path to the root depends only on the parent links |
| Mcts.Backpropagation | PlayerMCTS.py:316-330 | A simulation counts as won iff the searcher's bid equals its tricks; the path to the root is updated as `Propagate` says; validity and w ≤ n are kept; a missing bid or tally is a `KeyError` |
| Mcts.RandomSelect | PlayerMCTS.py:117-134 | The card comes from the follow-suit candidates for the state's leading suit and leaves the hand |
| Mcts.WithoutAll | PlayerMCTS.py:145-146 | Taking several cards out of a deck keeps exactly the others |
| Mcts.AvailableCards | PlayerMCTS.py:137-147 | The unseen-card pool is distinct and holds exactly the cards in neither the hand nor the played cards |

## Left out

- Sockets, event wiring, the `OhHell` driver loop with its display, ask and inform callbacks, and the experiment scripts are I/O and statistics drivers around the core.
- One gap concerns the experiment scripts. `combined_experiment.py` passes a `max_depth` argument to the unbounded lookahead player, which takes no such argument. Nothing here depends on it.
- `GameState.copy_state` and `TrickTracker.copy` are not modelled as operations. States and ledgers are values, so a copy is independent by construction.
- The model therefore does not reproduce the sharing the source leaves in place:
  - `bids` and `custom_ranks` are shared between a state and its copy;
  - the history lists are shared between a ledger and its copy.
- `trick_progression`, `__str__` and `__repr__` are display helpers.
- Random sampling is a `pick` index into the candidate list. The distribution of `random.sample` is not modelled, except that the bid list's multiplicities are stated exactly.
- Real numbers:
  - The lookahead's float scores are exact integers in 52nds.
  - The numpy float scoreboard is a table of integers.
  - UCT's finite value `w/n + c·sqrt(ln N/n)` (log, square root, and NaN at the root) is an `estimate` parameter. Only its infinite case is computed.
- The wall-clock search loop `search`, `expansion` and `simulation` are left out. They depend on time and randomness. The model covers the steps the loop calls: selection, backpropagation and frontier pruning.
- `MonteCarloTreeSearch`'s `play_card` wrapper is left out. It only runs the search loop and then `next_move`.
- `all_nodes` is a Python set, whose iteration order the source does not fix. The model chooses an order: the frontier is a sequence in the order the nodes were created, as `BuildRoot` builds it. Selection's tie-breaking among equal priorities follows that chosen order.
- pydealer stacks are sequences of cards. A card is named by suit and value, so taking a card out removes every equal card.
- `explore_node` collects scores in a dict keyed by card, so a hand holding two equal cards scores them once. The model scores by position, and its guarantees about the search assume a hand of distinct cards, which a dealt hand is.
- `Lookahead.ExploreBounded`: does not state a score bound of min(|cards|, max_depth) in whole points. It states the bound in 52nds as 52 · `Levels`, where `Levels` counts the levels added, at least 1 even at depth 0 or below.
- `RandomPlayer.BidsOut`, `RandomPlayer.BidsOutUpdate`, `RandomPlayer.BadBidAsWritten`, `RandomPlayer.MakeBidAsWritten` and `RandomPlayer.MakeBid`: `sum(state.bids.values())` sums over the map. The model sums the bids of the seated players, which is the same for every map whose keys are seated players, provided the seating list names no player twice. A player listed twice has its bid counted once per seat (`RandomPlayer.BidsOutCountsEverySeat`), where the source counts it once, so in such a game the dealer's barred bid differs from the source's.
- `GameState.FinishTrick`: keeps the leading suit of the finished trick, as the source does. Only `finish_round` clears it.
- `Ranking.OffSuitTie` records that `card_gt` is not a total order on cards. Two off-suit cards of equal value are unordered. Such a card can never be best, so the trick's outcome does not depend on the tie.
- `Mcts.Selection` keeps the terminal test as written (PlayerMCTS.py:232 calls `terminal_state`), so a node one play before the end of its round is not open. The rest of the model uses the corrected test (see Findings).
- `GameState.GetNextPlayer`: succeeds for every turn only in a valid game whose players are seated once each. With a player listed twice, `id2player` lacks the earlier seat, and the call fails with a `KeyError` as the source does.
- A source method that fails part-way has already made some changes. `collect_bid` stores the bid before the ledger raises a `KeyError` (GameState.py:102-103), and `calculate_scores` appends to the histories of the players scored before one that raises. The model returns a `Failure` and drops those partial changes. The driver never catches these exceptions, so no later step can observe the difference.

## Findings

| source | as written | input that shows it | evidently intended | confidence | as-written member | corrected member |
|---|---|---|---|---|---|---|
| GameState.py:212-216 | `terminal_state` compares players × hand size with the whole discard pile, which also holds the trump card `set_trump_suit` appended (GameState.py:87) | 2 players, a one-card round: after the trump card and the first player's card the pile holds 2 = 2 × 1, with the second player still to play | the round ends when every dealt card has been played, i.e. players × hand size plus the revealed trump card | not executed | GameState.TerminalAsWrittenOneTurnEarly | GameState.TerminalOnlyAtLastCard |
| Player.py:35-40 | the dealer's bad bid subtracts the sum of all stored bids, and the state's bids are never cleared between rounds (GameState.py:58, GameState.py:102), so the dealer's own bid from the previous round is counted | 2 players, hand size 2; the other player bid 0 this round and the dealer's stale bid is 1: the bad bid comes out as 1, the dealer may bid 2 and the bids add up to 2 | the dealer may not bid the hand size minus the other players' bids of this round | not executed | RandomPlayer.DealerHookAsWrittenCountsStaleBid | RandomPlayer.MakeBid |

The lookahead players may also play a card outside the leading suit while holding that suit (`Lookahead.LookaheadMayNotFollowSuit`). The source never asks them to follow suit, so this is recorded here rather than as a finding.
