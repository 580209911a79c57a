/** The score ledger of the game (TrickTracker.py): bids and tricks per
    player and round, and the cumulative scoreboard (players x rounds).
    The scoreboard is an integer matrix; the source keeps it in a float
    array, whose values are always whole numbers. */
module Ledger {

  import opened Wrappers

  /** Players are compared by identity in the game; the model names each one by a number. */
  type Player = nat

  /** What `calculate_scores` reports for one player: tricks taken and the bid. */
  datatype Report = Report(tricks: nat, bid: int)

  datatype Tracker = Tracker(
    bidHistory: map<Player, seq<int>>,
    trickHistory: map<Player, seq<nat>>,
    currBid: map<Player, int>,
    tricksTaken: map<Player, nat>,
    player2idx: map<Player, nat>,
    numRounds: int,
    scoreboard: seq<seq<int>>,
    currRound: nat)

  predicate NoDuplicates(players: seq<Player>) {
    forall i, j :: 0 <= i < j < |players| ==> players[i] != players[j]
  }

  /** The row index of each player; a player listed twice keeps its last position. */
  function Positions(players: seq<Player>): (m: map<Player, nat>)
    ensures m.Keys == set p | p in players
    ensures forall p :: p in m ==> m[p] < |players| && players[m[p]] == p
  {
    if players == [] then map[]
    else
      var last := |players| - 1;
      var m := Positions(players[..last])[players[last] := last];
      assert forall p :: p in players <==> p in players[..last] || p == players[last];
      m
  }

  /** A player listed twice keeps its last position: no position of a player
      comes after its row. */
  lemma {:induction false} PositionsKeepsLast(players: seq<Player>)
    ensures forall j :: 0 <= j < |players| ==> j <= Positions(players)[players[j]]
  {
    if players != [] {
      var last := |players| - 1;
      var prefix := players[..last];
      PositionsKeepsLast(prefix);
      var m := Positions(players);
      assert m == Positions(prefix)[players[last] := last];
      forall j | 0 <= j < |players|
        ensures j <= m[players[j]]
      {
        if j < last && players[j] != players[last] {
          assert players[j] == prefix[j];
          assert j <= Positions(prefix)[prefix[j]];
        }
      }
    }
  }

  /** With no player listed twice, each player's row is its position in the list. */
  lemma {:induction false} PositionsOfDistinct(players: seq<Player>)
    requires NoDuplicates(players)
    ensures forall i :: 0 <= i < |players| ==> Positions(players)[players[i]] == i
  {
    if players != [] {
      var last := |players| - 1;
      PositionsOfDistinct(players[..last]);
      forall i | 0 <= i < |players|
        ensures Positions(players)[players[i]] == i
      {
        if i < last {
          assert players[i] == players[..last][i];
        }
      }
    }
  }

  function Zeros(rows: nat, cols: nat): (z: seq<seq<int>>)
    ensures |z| == rows
    ensures forall i :: 0 <= i < rows ==> |z[i]| == cols
    ensures forall i, c :: 0 <= i < rows && 0 <= c < cols ==> z[i][c] == 0
  {
    seq(rows, _ => seq(cols, _ => 0))
  }

  /** The shape every operation keeps: one history, counter and row per player. */
  predicate Wellformed(t: Tracker) {
    && t.trickHistory.Keys == t.bidHistory.Keys
    && t.tricksTaken.Keys == t.bidHistory.Keys
    && t.player2idx.Keys == t.bidHistory.Keys
    && t.currBid.Keys <= t.bidHistory.Keys
    && t.numRounds >= 0
    && (forall p :: p in t.player2idx ==> t.player2idx[p] < |t.scoreboard|)
    && (forall i :: 0 <= i < |t.scoreboard| ==> |t.scoreboard[i]| == t.numRounds)
  }

  /** No two players share a scoreboard row. */
  predicate Injective(m: map<Player, nat>) {
    forall p, q :: p in m && q in m && m[p] == m[q] ==> p == q
  }

  /** A fresh ledger: empty histories, no tricks, an all-zero scoreboard.
      A negative round count is refused, as allocating the array would be. */
  function Init(players: seq<Player>, numRounds: int): (r: Result<Tracker>)
    ensures r.Success? <==> numRounds >= 0
    ensures r.Success? ==> Wellformed(r.value) && Injective(r.value.player2idx)
    ensures r.Success? ==> forall p :: p in players ==>
              && p in r.value.tricksTaken && r.value.tricksTaken[p] == 0
              && r.value.bidHistory[p] == [] && r.value.trickHistory[p] == []
    ensures r.Success? ==> r.value.bidHistory.Keys == set p | p in players
    ensures r.Success? ==> r.value.currBid == map[] && r.value.currRound == 0
    ensures r.Success? ==> |r.value.scoreboard| == |players|
    ensures r.Success? ==> forall i :: 0 <= i < |players| ==> |r.value.scoreboard[i]| == numRounds
    ensures r.Success? ==> forall i, c :: 0 <= i < |players| && 0 <= c < numRounds ==>
              r.value.scoreboard[i][c] == 0
    ensures r.Success? && NoDuplicates(players) ==>
              forall i :: 0 <= i < |players| ==> r.value.player2idx[players[i]] == i
  {
    if numRounds < 0 then Failure(ValueError)
    else
      var keys := set p | p in players;
      assert NoDuplicates(players) ==>
          forall i :: 0 <= i < |players| ==> Positions(players)[players[i]] == i by {
        if NoDuplicates(players) { PositionsOfDistinct(players); }
      }
      Success(Tracker(
        map p | p in keys :: [],
        map p | p in keys :: [],
        map[],
        map p | p in keys :: 0,
        Positions(players),
        numRounds,
        Zeros(|players|, numRounds),
        0))
  }

  /** Records a bid: appended to the player's history and made the current bid. */
  function CollectBid(t: Tracker, p: Player, bid: int): (r: Result<Tracker>)
    ensures r.Success? <==> p in t.bidHistory
    ensures r.Success? ==> r.value.bidHistory == t.bidHistory[p := t.bidHistory[p] + [bid]]
    ensures r.Success? ==> r.value.currBid == t.currBid[p := bid]
    ensures r.Success? ==> r.value == t.(bidHistory := r.value.bidHistory, currBid := r.value.currBid)
    ensures r.Success? && Wellformed(t) ==> Wellformed(r.value)
  {
    if p !in t.bidHistory then Failure(KeyError)
    else Success(t.(bidHistory := t.bidHistory[p := t.bidHistory[p] + [bid]],
                    currBid := t.currBid[p := bid]))
  }

  /** Credits one trick to the winner of a trick; no other counter moves. */
  function TrickTaken(t: Tracker, p: Player): (r: Result<Tracker>)
    ensures r.Success? <==> p in t.tricksTaken
    ensures r.Success? ==> r.value.tricksTaken.Keys == t.tricksTaken.Keys
    ensures r.Success? ==> r.value.tricksTaken[p] == t.tricksTaken[p] + 1
    ensures r.Success? ==> forall q :: q in t.tricksTaken && q != p ==>
              r.value.tricksTaken[q] == t.tricksTaken[q]
    ensures r.Success? ==> r.value == t.(tricksTaken := r.value.tricksTaken)
    ensures r.Success? && Wellformed(t) ==> Wellformed(r.value)
  {
    if p !in t.tricksTaken then Failure(KeyError)
    else Success(t.(tricksTaken := t.tricksTaken[p := t.tricksTaken[p] + 1]))
  }

  /** The points of one round: a trick each, plus a bonus of 10 for making the bid exactly. */
  function RoundPoints(tricks: nat, bid: int): (points: nat)
    ensures points == tricks || points == tricks + 10
    ensures points == tricks + 10 <==> tricks == bid
  {
    if tricks == bid then tricks + 10 else tricks
  }

  /** The cumulative cell a player gets for the current round. */
  function CumulativeCell(row: seq<int>, round: nat, points: nat): int
    requires round < |row|
  {
    if round == 0 then points else points + row[round - 1]
  }

  /** One iteration of the scoring loop, for player `p`. */
  function ScorePlayer(t: Tracker, p: Player): Result<(Tracker, Report)> {
    if p !in t.tricksTaken || p !in t.trickHistory || p !in t.currBid || p !in t.player2idx then
      Failure(KeyError)
    else
      var points := t.tricksTaken[p];
      var bid := t.currBid[p];
      var idx := t.player2idx[p];
      if idx >= |t.scoreboard| || t.currRound >= |t.scoreboard[idx]| then Failure(IndexError)
      else
        var row := t.scoreboard[idx];
        var cell := CumulativeCell(row, t.currRound, RoundPoints(points, bid));
        Success((t.(trickHistory := t.trickHistory[p := t.trickHistory[p] + [points]],
                    scoreboard := t.scoreboard[idx := row[t.currRound := cell]]),
                 Report(points, bid)))
  }

  /** The scoring loop over `players`, carrying the report built so far. */
  function ScoreAll(t: Tracker, players: seq<Player>, out: map<Player, Report>)
    : Result<(Tracker, map<Player, Report>)>
    decreases |players|
  {
    if players == [] then Success((t, out))
    else
      match ScorePlayer(t, players[0])
      case Failure(f) => Failure(f)
      case Success((t1, entry)) => ScoreAll(t1, players[1..], out[players[0] := entry])
  }

  /** Scores the round for `players` and reports tricks and bid per player. */
  function CalculateScores(t: Tracker, players: seq<Player>): Result<(Tracker, map<Player, Report>)> {
    ScoreAll(t, players, map[])
  }

  /** The row player `p` has after scoring the current round. */
  function ScoredRow(t: Tracker, p: Player): seq<int>
    requires Wellformed(t)
    requires p in t.player2idx && p in t.currBid
    requires t.currRound < t.numRounds
  {
    var i := t.player2idx[p];
    t.scoreboard[i][t.currRound :=
      CumulativeCell(t.scoreboard[i], t.currRound, RoundPoints(t.tricksTaken[p], t.currBid[p]))]
  }

  /** One scoring step touches only that player's history entry and row. */
  lemma ScorePlayerSpec(t: Tracker, p: Player)
    requires Wellformed(t)
    ensures ScorePlayer(t, p).Success? <==>
              p in t.bidHistory && p in t.currBid && t.currRound < t.numRounds
    ensures ScorePlayer(t, p).Success? ==>
              var (t1, entry) := ScorePlayer(t, p).value;
              && Wellformed(t1)
              && ScoredOne(t, t1, p)
              && t1.trickHistory == t.trickHistory[p := t.trickHistory[p] + [t.tricksTaken[p]]]
              && entry == Report(t.tricksTaken[p], t.currBid[p])
  {
  }

  /** Scoring fails exactly when a listed player is unknown or has not bid, or
      when the current round lies beyond the scoreboard. */
  lemma {:induction false} ScoreAllSucceeds(t: Tracker, players: seq<Player>, out: map<Player, Report>)
    requires Wellformed(t)
    ensures ScoreAll(t, players, out).Success? <==>
              && (forall p :: p in players ==> p in t.bidHistory && p in t.currBid)
              && (players != [] ==> t.currRound < t.numRounds)
    decreases |players|
  {
    if players != [] {
      var p := players[0];
      assert forall q :: q in players <==> q == p || q in players[1..];
      ScorePlayerSpec(t, p);
      if ScorePlayer(t, p).Success? {
        var (t1, entry) := ScorePlayer(t, p).value;
        ScoreAllSucceeds(t1, players[1..], out[p := entry]);
      }
    }
  }

  /** Scoring keeps the ledger's shape and changes only histories and scoreboard. */
  lemma {:induction false} ScoreAllShape(t: Tracker, players: seq<Player>, out: map<Player, Report>)
    requires Wellformed(t)
    requires ScoreAll(t, players, out).Success?
    ensures var t' := ScoreAll(t, players, out).value.0;
      && Wellformed(t')
      && t' == t.(trickHistory := t'.trickHistory, scoreboard := t'.scoreboard)
      && |t'.scoreboard| == |t.scoreboard|
    decreases |players|
  {
    if players != [] {
      ScorePlayerSpec(t, players[0]);
      var (t1, entry) := ScorePlayer(t, players[0]).value;
      ScoreAllShape(t1, players[1..], out[players[0] := entry]);
    }
  }

  /** Every listed player gets exactly one more trick-history entry, the tricks it
      took this round; the others keep theirs. */
  lemma {:induction false} ScoreAllHistory(t: Tracker, players: seq<Player>, out: map<Player, Report>)
    requires Wellformed(t)
    requires NoDuplicates(players)
    requires ScoreAll(t, players, out).Success?
    ensures forall p :: p in players ==> p in t.bidHistory
    ensures var t' := ScoreAll(t, players, out).value.0;
      && t'.trickHistory.Keys == t.trickHistory.Keys
      && (forall p :: p in t.trickHistory && p !in players ==> t'.trickHistory[p] == t.trickHistory[p])
      && (forall p :: p in players ==> t'.trickHistory[p] == t.trickHistory[p] + [t.tricksTaken[p]])
    decreases |players|
  {
    ScoreAllSucceeds(t, players, out);
    if players != [] {
      var p := players[0];
      var rest := players[1..];
      assert forall q :: q in players <==> q == p || q in rest;
      assert p !in rest;
      ScorePlayerSpec(t, p);
      var (t1, entry) := ScorePlayer(t, p).value;
      ScoreAllHistory(t1, rest, out[p := entry]);
    }
  }

  /** The report holds, for every listed player, its tricks this round and its bid. */
  lemma {:induction false} ScoreAllReport(t: Tracker, players: seq<Player>, out: map<Player, Report>)
    requires Wellformed(t)
    requires NoDuplicates(players)
    requires ScoreAll(t, players, out).Success?
    ensures forall p :: p in players ==> p in t.bidHistory && p in t.currBid
    ensures var out' := ScoreAll(t, players, out).value.1;
      && out'.Keys == out.Keys + (set p | p in players)
      && (forall p :: p in out && p !in players ==> out'[p] == out[p])
      && (forall p :: p in players ==> out'[p] == Report(t.tricksTaken[p], t.currBid[p]))
    decreases |players|
  {
    ScoreAllSucceeds(t, players, out);
    if players != [] {
      var p := players[0];
      var rest := players[1..];
      assert forall q :: q in players <==> q == p || q in rest;
      assert p !in rest;
      ScorePlayerSpec(t, p);
      var (t1, entry) := ScorePlayer(t, p).value;
      ScoreAllReport(t1, rest, out[p := entry]);
    }
  }

  /** `board` is the scoreboard of `t` after scoring `players`: each listed player's
      row carries its cumulative cell for the current round (previous cell plus the
      round's points) and every other row is as it was. */
  predicate BoardAfter(t: Tracker, players: seq<Player>, board: seq<seq<int>>)
    requires Wellformed(t)
    requires forall p :: p in players ==> p in t.bidHistory && p in t.currBid
    requires players != [] ==> t.currRound < t.numRounds
  {
    && |board| == |t.scoreboard|
    && (forall p :: p in players ==> board[t.player2idx[p]] == ScoredRow(t, p))
    && (forall i :: 0 <= i < |t.scoreboard| && NotRowOf(t, players, i) ==> board[i] == t.scoreboard[i])
  }

  /** `t1` is `t` after scoring player `p` alone. */
  predicate ScoredOne(t: Tracker, t1: Tracker, p: Player)
    requires Wellformed(t)
  {
    && p in t.bidHistory && p in t.currBid && t.currRound < t.numRounds
    && t1 == t.(trickHistory := t1.trickHistory, scoreboard := t.scoreboard[t.player2idx[p] := ScoredRow(t, p)])
  }

  /** The inductive step of `ScoreAllBoard`, kept apart from the scoring loop itself. */
  lemma BoardStep(t: Tracker, t1: Tracker, p: Player, rest: seq<Player>, board: seq<seq<int>>)
    requires Wellformed(t) && Wellformed(t1) && ScoredOne(t, t1, p)
    requires Injective(t.player2idx)
    requires p !in rest
    requires forall q :: q in rest ==> q in t.bidHistory && q in t.currBid
    requires BoardAfter(t1, rest, board)
    ensures BoardAfter(t, [p] + rest, board)
  {
    var idx := t.player2idx[p];
    assert NotRowOf(t1, rest, idx);
    forall q | q in [p] + rest
      ensures board[t.player2idx[q]] == ScoredRow(t, q)
    {
      if q != p {
        assert q in rest && t.player2idx[q] != idx;
      }
    }
    forall i | 0 <= i < |t.scoreboard| && NotRowOf(t, [p] + rest, i)
      ensures board[i] == t.scoreboard[i]
    {
      assert i != idx;
      assert NotRowOf(t1, rest, i);
    }
  }

  /** Every listed player's row gets its cumulative cell for the current round
      (previous cell plus the round's points); every other row is untouched. */
  lemma {:induction false} ScoreAllBoard(t: Tracker, players: seq<Player>, out: map<Player, Report>)
    requires Wellformed(t)
    requires NoDuplicates(players)
    requires ScoreAll(t, players, out).Success?
    requires Injective(t.player2idx)
    ensures forall p :: p in players ==> p in t.bidHistory && p in t.currBid
    ensures players != [] ==> t.currRound < t.numRounds
    ensures BoardAfter(t, players, ScoreAll(t, players, out).value.0.scoreboard)
    decreases |players|
  {
    ScoreAllSucceeds(t, players, out);
    if players != [] {
      var p := players[0];
      var rest := players[1..];
      assert players == [p] + rest;
      assert p !in rest;
      ScorePlayerSpec(t, p);
      var (t1, entry) := ScorePlayer(t, p).value;
      ScoreAllBoard(t1, rest, out[p := entry]);
      BoardStep(t, t1, p, rest, ScoreAll(t1, rest, out[p := entry]).value.0.scoreboard);
    }
  }

  /** Row `i` belongs to none of the listed players. */
  predicate NotRowOf(t: Tracker, players: seq<Player>, i: nat) {
    forall p :: p in players && p in t.player2idx ==> t.player2idx[p] != i
  }

  /** Scoring never lowers a player's cumulative score: the new cell is the
      previous round's cell plus at least the tricks taken. */
  lemma ScoresNeverDecrease(t: Tracker, players: seq<Player>, p: Player)
    requires Wellformed(t) && Injective(t.player2idx)
    requires NoDuplicates(players)
    requires p in players
    requires CalculateScores(t, players).Success?
    requires t.currRound >= 1
    ensures p in t.player2idx
    ensures var t' := CalculateScores(t, players).value.0;
      var i := t.player2idx[p];
      && i < |t'.scoreboard| && t.currRound < |t'.scoreboard[i]|
      && t'.scoreboard[i][t.currRound] >= t'.scoreboard[i][t.currRound - 1] + t.tricksTaken[p]
  {
    ScoreAllBoard(t, players, map[]);
    assert p in t.player2idx;
  }

  /** Starts the next round: the round counter advances, current bids are dropped
      and every trick counter returns to zero; histories and scoreboard stay. */
  function Reset(t: Tracker): (r: Tracker)
    ensures r.currRound == t.currRound + 1
    ensures r.currBid == map[]
    ensures r.tricksTaken.Keys == t.bidHistory.Keys
    ensures forall p :: p in r.tricksTaken ==> r.tricksTaken[p] == 0
    ensures r == t.(currRound := r.currRound, currBid := map[], tricksTaken := r.tricksTaken)
    ensures Wellformed(t) ==> Wellformed(r)
  {
    t.(currRound := t.currRound + 1,
       currBid := map[],
       tricksTaken := map p | p in t.bidHistory.Keys :: 0)
  }

  /** The scoreboard rows in the order of the given players. */
  function GetScoreboard(t: Tracker, players: seq<Player>): (r: Result<seq<seq<int>>>)
    requires Wellformed(t)
    ensures r.Success? <==> forall p :: p in players ==> p in t.player2idx
    ensures r.Success? ==> |r.value| == |players|
    ensures r.Success? ==> forall i :: 0 <= i < |players| ==>
              r.value[i] == t.scoreboard[t.player2idx[players[i]]]
  {
    if exists p :: p in players && p !in t.player2idx then Failure(KeyError)
    else Success(seq(|players|, i requires 0 <= i < |players| => t.scoreboard[t.player2idx[players[i]]]))
  }

  /** Asked in the order the ledger was created with, the scoreboard comes back as is. */
  lemma ScoreboardInCreationOrder(players: seq<Player>, numRounds: nat, t: Tracker)
    requires NoDuplicates(players)
    requires Init(players, numRounds) == Success(t)
    ensures GetScoreboard(t, players) == Success(t.scoreboard)
  {
    var r := GetScoreboard(t, players);
    assert r.Success? by {
      forall p | p in players ensures p in t.player2idx {
        var i :| 0 <= i < |players| && players[i] == p;
        assert t.player2idx[players[i]] == i;
      }
    }
    forall i | 0 <= i < |players| ensures r.value[i] == t.scoreboard[i] {
      assert t.player2idx[players[i]] == i;
    }
    assert r.value == t.scoreboard;
  }
}
