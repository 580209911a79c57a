/** The skeleton of the Monte Carlo tree search participant (PlayerMCTS.py):
    the search tree with its visit and win counters, the root with one child per
    card in hand, the frontier of nodes still open to expansion, the choice of
    the next node to expand, the update of counters along a path, and the final
    choice of a card.

    The tree is an arena: node `i` is `tree[i]`, the root is node 0 and every
    other node's parent comes before it. */
module Mcts {

  import opened Wrappers
  import opened Cards
  import GameState
  import RandomPlayer

  type Player = GameState.Player

  /** A search node: the searching participant's hand and the game state at the
      node, whether the move into it was the searcher's own, the card played to
      reach it, the links, the win and visit counters and the depth. */
  datatype Node = Node(
    hand: seq<Card>,
    state: GameState.State,
    myTurn: bool,
    action: Option<Card>,
    parent: Option<nat>,
    children: seq<nat>,
    w: nat,
    n: nat,
    depth: nat)

  /** The tree, the frontier (`all_nodes`, enumerated in some order) and the
      searching participant. */
  datatype Search = Search(tree: seq<Node>, frontier: seq<nat>, player: Player)

  /** Every parent precedes its child, and every child follows its parent and
      exists. */
  predicate Linked(tree: seq<Node>) {
    && (forall i :: 0 <= i < |tree| && tree[i].parent.Some? ==> tree[i].parent.value < i)
    && (forall i, k :: 0 <= i < |tree| && 0 <= k < |tree[i].children| ==> i < tree[i].children[k] < |tree|)
  }

  /** Every entry names a node of the tree. */
  predicate InTree(tree: seq<Node>, xs: seq<nat>) {
    forall j :: 0 <= j < |xs| ==> xs[j] < |tree|
  }

  /** No node has won more simulations than it took part in. */
  predicate Counted(tree: seq<Node>) {
    forall i :: 0 <= i < |tree| ==> tree[i].w <= tree[i].n
  }

  predicate Valid(s: Search) {
    && |s.tree| > 0
    && s.tree[0].parent.None?
    && Linked(s.tree)
    && InTree(s.tree, s.frontier)
    && (forall j :: 0 <= j < |s.frontier| ==> s.frontier[j] != 0)
  }

  // ---------------------------------------------------------------------------
  // Nodes and the root

  /** `Node.__init__` with a parent: the node starts unvisited, one level below its
      parent, and is appended to the parent's children. */
  function AddChild(tree: seq<Node>, parent: nat, hand: seq<Card>, state: GameState.State, myTurn: bool, action: Card)
    : (r: seq<Node>)
    requires parent < |tree|
    ensures |r| == |tree| + 1
    ensures r[|tree|] == Node(hand, state, myTurn, Some(action), Some(parent), [], 0, 0, tree[parent].depth + 1)
    ensures r[parent] == tree[parent].(children := tree[parent].children + [|tree|])
    ensures forall i :: 0 <= i < |tree| && i != parent ==> r[i] == tree[i]
    ensures Linked(tree) ==> Linked(r)
    ensures Counted(tree) ==> Counted(r)
  {
    var child := Node(hand, state, myTurn, Some(action), Some(parent), [], 0, 0, tree[parent].depth + 1);
    tree[parent := tree[parent].(children := tree[parent].children + [|tree|])] + [child]
  }

  /** The state after the searcher plays each card of `cards` from `state`;
      the first card the state cannot take fails the whole list. */
  function ChildStates(state: GameState.State, player: Player, cards: seq<Card>): (r: Result<seq<GameState.State>>)
    ensures r.Success? <==> forall j :: 0 <= j < |cards| ==> GameState.PlayCard(state, player, cards[j]).Success?
    ensures r.Success? ==> |r.value| == |cards|
    ensures r.Success? ==> forall j :: 0 <= j < |cards| ==> GameState.PlayCard(state, player, cards[j]) == Success(r.value[j])
  {
    var rs := seq(|cards|, j requires 0 <= j < |cards| => GameState.PlayCard(state, player, cards[j]));
    assert forall j :: 0 <= j < |cards| ==> rs[j] == GameState.PlayCard(state, player, cards[j]);
    CollectSpec(rs);
    Collect(rs)
  }

  /** `MonteCarloTreeSearch.__init__`: a root holding the hand and state, and one
      child per card in hand, in hand order, each holding the hand less that card
      and the state after the searcher plays it. Children left with an empty hand
      are not put in the frontier. A card the state cannot take fails the
      construction. */
  method BuildRoot(hand: seq<Card>, state: GameState.State, player: Player) returns (r: Result<Search>)
    ensures r.Success? <==> ChildStates(state, player, hand).Success?
    ensures r.Success? ==> RootOf(r.value, hand, state, player, ChildStates(state, player, hand).value)
  {
    var next := ChildStates(state, player, hand);
    if next.Failure? {
      return Failure(next.fault);
    }
    var s := BuildTree(hand, state, player, next.value);
    return Success(s);
  }

  /** The tree of `__init__` once the state after each card is known. */
  method BuildTree(hand: seq<Card>, state: GameState.State, player: Player, states: seq<GameState.State>) returns (s: Search)
    requires |states| == |hand|
    ensures RootOf(s, hand, state, player, states)
  {
    var tree := [Node(hand, state, true, None, None, [], 0, 0, 0)];
    var frontier: seq<nat> := [];
    for k := 0 to |hand|
      invariant |tree| == k + 1
      invariant tree[0] == Node(hand, state, true, None, None, ChildIndices(k), 0, 0, 0)
      invariant forall j :: 0 <= j < k ==> tree[j + 1] == RootChild(hand, states[j], j)
      invariant forall i :: i in frontier <==> 1 <= i <= k && |tree[i].hand| > 0
      invariant forall j :: 0 <= j < |frontier| ==> 1 <= frontier[j] <= k
      invariant Increasing(frontier)
      invariant Counted(tree) && Linked(tree)
    {
      var rest := Without(hand, hand[k]);
      RootChildStep(tree, hand, state, states, k);
      tree := AddChild(tree, 0, rest, states[k], true, hand[k]);
      if |rest| > 0 {
        frontier := frontier + [k + 1];
      }
    }
    s := Search(tree, frontier, player);
  }

  /** Adding the root's child for `hand[k]` extends the root's children by one
      and keeps every earlier child. */
  lemma RootChildStep(tree: seq<Node>, hand: seq<Card>, state: GameState.State, states: seq<GameState.State>, k: nat)
    requires k < |hand| == |states| && |tree| == k + 1
    requires tree[0] == Node(hand, state, true, None, None, ChildIndices(k), 0, 0, 0)
    requires forall j :: 0 <= j < k ==> tree[j + 1] == RootChild(hand, states[j], j)
    ensures var t := AddChild(tree, 0, Without(hand, hand[k]), states[k], true, hand[k]);
      && t[0] == Node(hand, state, true, None, None, ChildIndices(k + 1), 0, 0, 0)
      && forall j :: 0 <= j < k + 1 ==> t[j + 1] == RootChild(hand, states[j], j)
  {
    assert ChildIndices(k + 1) == ChildIndices(k) + [k + 1];
  }

  /** The indices 1 to `k`. */
  function ChildIndices(k: nat): (r: seq<nat>)
    ensures |r| == k
    ensures forall j :: 0 <= j < k ==> r[j] == j + 1
  {
    seq(k, j requires 0 <= j < k => j + 1)
  }

  predicate Increasing(xs: seq<nat>) {
    forall i, j :: 0 <= i < j < |xs| ==> xs[i] < xs[j]
  }

  /** The root's child for `hand[k]`, reached in state `next`. */
  function RootChild(hand: seq<Card>, next: GameState.State, k: nat): Node
    requires k < |hand|
  {
    Node(Without(hand, hand[k]), next, true, Some(hand[k]), Some(0), [], 0, 0, 1)
  }

  /** What `BuildRoot` promises about the search it builds from the states after
      each card. */
  ghost predicate RootOf(s: Search, hand: seq<Card>, state: GameState.State, player: Player, states: seq<GameState.State>) {
    && Valid(s) && Counted(s.tree)
    && s.player == player
    && |s.tree| == |hand| + 1 && |states| == |hand|
    && s.tree[0] == Node(hand, state, true, None, None, ChildIndices(|hand|), 0, 0, 0)
    && (forall k :: 0 <= k < |hand| ==> s.tree[k + 1] == RootChild(hand, states[k], k))
    && (forall i :: i in s.frontier <==> 1 <= i <= |hand| && |s.tree[i].hand| > 0)
    && Increasing(s.frontier)
  }

  /** A non-empty sequence holds its head. */
  lemma HeadIn(xs: seq<nat>)
    ensures |xs| == 0 || xs[0] in xs
  {
  }

  /** With a single card in hand its child holds no card, so the frontier is
      empty and the search loop never runs. With more distinct cards every child
      is open. */
  lemma RootFrontier(s: Search, hand: seq<Card>, state: GameState.State, player: Player, states: seq<GameState.State>)
    requires RootOf(s, hand, state, player, states)
    ensures |hand| == 1 ==> s.frontier == []
    ensures Distinct(hand) && |hand| > 1 ==> forall i :: 1 <= i <= |hand| ==> i in s.frontier
  {
    if |hand| == 1 {
      assert s.tree[1] == RootChild(hand, states[0], 0);
      assert Distinct(hand);
      assert |s.tree[1].hand| == 0;
      HeadIn(s.frontier);
    }
    if Distinct(hand) && |hand| > 1 {
      forall i | 1 <= i <= |hand| ensures i in s.frontier {
        assert s.tree[i] == RootChild(hand, states[i - 1], i - 1);
      }
    }
  }

  // ---------------------------------------------------------------------------
  // Choosing the card

  /** A child's win ratio `w / n`; children never visited score 0. */
  function Ratio(node: Node): (q: real)
    ensures node.w <= node.n ==> 0.0 <= q <= 1.0
  {
    if node.n == 0 then 0.0 else node.w as real / node.n as real
  }

  /** The first index holding the largest value. */
  function FirstBest(xs: seq<real>): (i: nat)
    requires |xs| > 0
    ensures i < |xs|
    ensures forall k :: 0 <= k < |xs| ==> xs[k] <= xs[i]
    ensures forall k :: 0 <= k < i ==> xs[k] < xs[i]
  {
    if |xs| == 1 then 0
    else
      var j := FirstBest(xs[..|xs| - 1]);
      assert forall k :: 0 <= k < |xs| - 1 ==> xs[..|xs| - 1][k] == xs[k];
      if xs[|xs| - 1] > xs[j] then |xs| - 1 else j
  }

  /** The win ratios of the root's children, in order. */
  function ChildRatios(s: Search): (xs: seq<real>)
    requires Valid(s)
    ensures |xs| == |s.tree[0].children|
  {
    var cs := s.tree[0].children;
    seq(|cs|, k requires 0 <= k < |cs| => Ratio(s.tree[cs[k]]))
  }

  /** `next_move`: the action of the first root child with the best positive win
      ratio, or of the first child when none has won; an `IndexError` without
      children. */
  method NextMove(s: Search) returns (r: Result<Option<Card>>)
    requires Valid(s) && Counted(s.tree)
    ensures r.Success? <==> |s.tree[0].children| > 0
    ensures r.Failure? ==> r.fault == IndexError
    ensures r.Success? ==> r.value == s.tree[s.tree[0].children[FirstBest(ChildRatios(s))]].action
  {
    var cs := s.tree[0].children;
    if |cs| == 0 {
      return Failure(IndexError);
    }
    var xs := ChildRatios(s);
    var bestRatio: real := 0.0;
    var best := 0;
    for k := 0 to |cs|
      invariant best < |cs| && (best < k || best == 0)
      invariant if k == 0 then bestRatio == 0.0 else bestRatio == xs[best]
      invariant 0.0 <= bestRatio
      invariant forall j :: 0 <= j < k ==> xs[j] <= bestRatio
      invariant forall j :: 0 <= j < best ==> xs[j] < bestRatio
    {
      assert 0.0 <= xs[k];
      var child := s.tree[cs[k]];
      if child.n != 0 {
        var ratio := child.w as real / child.n as real;
        if ratio > bestRatio {
          best := k;
          bestRatio := ratio;
        }
      }
    }
    FirstBestUnique(xs, best);
    r := Success(s.tree[cs[best]].action);
  }

  /** The first index of the largest value is the only index that is at least
      every value and strictly above all values before it. */
  lemma FirstBestUnique(xs: seq<real>, b: nat)
    requires b < |xs|
    requires forall k :: 0 <= k < |xs| ==> xs[k] <= xs[b]
    requires forall k :: 0 <= k < b ==> xs[k] < xs[b]
    ensures FirstBest(xs) == b
  {
  }

  // ---------------------------------------------------------------------------
  // The frontier

  /** `update_all_nodes`: frontier nodes with as many children as cards in hand
      are fully expanded and leave the frontier; the others stay, in order. */
  function UpdateFrontier(tree: seq<Node>, frontier: seq<nat>): (r: seq<nat>)
    requires InTree(tree, frontier)
    ensures InTree(tree, r)
    ensures forall i :: i in r <==> i in frontier && |tree[i].hand| != |tree[i].children|
    ensures |r| <= |frontier|
    ensures Increasing(frontier) ==> Increasing(r)
  {
    if frontier == [] then []
    else
      var rest := UpdateFrontier(tree, frontier[1..]);
      assert forall i :: i in frontier <==> i == frontier[0] || i in frontier[1..];
      if |tree[frontier[0]].hand| == |tree[frontier[0]].children| then rest
      else
        var r := [frontier[0]] + rest;
        assert Increasing(frontier) ==> Increasing(r) by {
          if Increasing(frontier) {
            assert forall j :: 0 <= j < |rest| ==> rest[j] in frontier[1..];
            assert forall j :: 0 <= j < |rest| ==> frontier[0] < rest[j];
          }
        }
        r
  }

  /** Dropping the fully expanded nodes is idempotent. */
  lemma UpdateFrontierIdempotent(tree: seq<Node>, frontier: seq<nat>)
    requires InTree(tree, frontier)
    ensures UpdateFrontier(tree, UpdateFrontier(tree, frontier)) == UpdateFrontier(tree, frontier)
  {
    if frontier != [] {
      UpdateFrontierIdempotent(tree, frontier[1..]);
    }
  }

  // ---------------------------------------------------------------------------
  // Selection

  /** The priority `UCT` gives a node: infinite for a node never visited and
      never won, otherwise the finite value of its formula, supplied by
      `estimate`. */
  datatype Priority = Infinite | Finite(value: real)

  function Uct(node: Node, estimate: real): (p: Priority)
    ensures p.Infinite? <==> node.w == 0 && node.n == 0
  {
    if node.w == 0 && node.n == 0 then Infinite else Finite(estimate)
  }

  /** `score > best_score` on priorities: infinity exceeds every finite value and
      not itself. */
  predicate Above(a: Priority, b: Priority) {
    match (a, b)
    case (Infinite, Finite(_)) => true
    case (Finite(x), Finite(y)) => x > y
    case _ => false
  }

  lemma AboveStrictTotal(a: Priority, b: Priority, c: Priority)
    ensures !Above(a, a)
    ensures Above(a, b) ==> !Above(b, a)
    ensures Above(a, b) && Above(b, c) ==> Above(a, c)
    ensures a != b ==> Above(a, b) || Above(b, a)
  {
  }

  /** `selection`: no node on an empty frontier; otherwise the first frontier node,
      displaced by each later node whose priority is strictly higher and whose
      state is not terminal. `estimate[i]` is the finite `UCT` value of the node
      `frontier[i]`. */
  method Selection(s: Search, estimate: seq<real>) returns (r: Option<nat>)
    requires Valid(s) && |estimate| == |s.frontier|
    ensures r.None? <==> s.frontier == []
    ensures r.Some? ==> exists b :: 0 <= b < |s.frontier| && s.frontier[b] == r.value && Selected(s, estimate, b)
  {
    if |s.frontier| == 0 {
      return None;
    }
    var best := 0;
    var bestScore := Uct(s.tree[s.frontier[0]], estimate[0]);
    for k := 1 to |s.frontier|
      invariant best < k
      invariant bestScore == PriorityAt(s, estimate, best)
      invariant best == 0 || Open(s, best)
      invariant forall j :: best < j < k ==> !(Above(PriorityAt(s, estimate, j), bestScore) && Open(s, j))
      invariant forall j :: 0 <= j < best && (j == 0 || Open(s, j)) ==> Above(bestScore, PriorityAt(s, estimate, j))
    {
      var score := Uct(s.tree[s.frontier[k]], estimate[k]);
      if Above(score, bestScore) && !GameState.TerminalStateAsWritten(s.tree[s.frontier[k]].state) {
        forall j | 0 <= j < k && (j == 0 || Open(s, j))
          ensures Above(score, PriorityAt(s, estimate, j))
        {
          if j != best {
            AboveStrictTotal(score, bestScore, PriorityAt(s, estimate, j));
            AboveStrictTotal(bestScore, PriorityAt(s, estimate, j), score);
          }
        }
        best := k;
        bestScore := score;
      }
    }
    return Some(s.frontier[best]);
  }

  function PriorityAt(s: Search, estimate: seq<real>, j: nat): Priority
    requires Valid(s) && |estimate| == |s.frontier| && j < |s.frontier|
  {
    Uct(s.tree[s.frontier[j]], estimate[j])
  }

  /** The `j`-th frontier node's state is not terminal, by the terminal test the
      searcher calls: the one as written, which already holds one play before the
      last card of the round. */
  predicate Open(s: Search, j: nat)
    requires Valid(s) && j < |s.frontier|
  {
    !GameState.TerminalStateAsWritten(s.tree[s.frontier[j]].state)
  }

  /** The frontier position `b` is the one `selection` keeps: the first position or
      an open one; strictly above the first and every open position before it;
      and not strictly below any open position after it. */
  predicate Selected(s: Search, estimate: seq<real>, b: nat)
    requires Valid(s) && |estimate| == |s.frontier| && b < |s.frontier|
  {
    && (b == 0 || Open(s, b))
    && (forall j :: 0 <= j < b && (j == 0 || Open(s, j)) ==> Above(PriorityAt(s, estimate, b), PriorityAt(s, estimate, j)))
    && (forall j :: b < j < |s.frontier| && Open(s, j) ==> !Above(PriorityAt(s, estimate, j), PriorityAt(s, estimate, b)))
  }

  /** An open node that was never visited, after the first position, is always
      preferred to a visited one: the selected node is then unvisited too. */
  lemma SelectedPrefersUnvisited(s: Search, estimate: seq<real>, b: nat, k: nat)
    requires Valid(s) && |estimate| == |s.frontier| && b < |s.frontier| && k < |s.frontier|
    requires Selected(s, estimate, b)
    requires 0 < k && Open(s, k) && s.tree[s.frontier[k]].w == 0 && s.tree[s.frontier[k]].n == 0
    ensures PriorityAt(s, estimate, b).Infinite?
  {
  }

  // ---------------------------------------------------------------------------
  // Backpropagation

  /** Node `i` lies on the path from node `j` up to the root. */
  predicate OnPath(tree: seq<Node>, j: nat, i: nat)
    requires Linked(tree) && j < |tree|
    decreases j
  {
    j == i || (tree[j].parent.Some? && OnPath(tree, tree[j].parent.value, i))
  }

  lemma {:induction false} OnPathBelow(tree: seq<Node>, j: nat, i: nat)
    requires Linked(tree) && j < |tree|
    ensures OnPath(tree, j, i) ==> i <= j
    decreases j
  {
    if tree[j].parent.Some? {
      OnPathBelow(tree, tree[j].parent.value, i);
    }
  }

  /** One node's counters after a simulation: one more visit, and one more win
      when the simulation was won and the move into the node was the searcher's. */
  function Bumped(node: Node, won: bool): Node {
    node.(n := node.n + 1, w := if won && node.myTurn then node.w + 1 else node.w)
  }

  /** The counter updates from node `j` up to the root. */
  function Propagate(tree: seq<Node>, j: nat, won: bool): (r: seq<Node>)
    requires Linked(tree) && j < |tree|
    ensures |r| == |tree|
    ensures forall i :: 0 <= i < |tree| ==> r[i] == if OnPath(tree, j, i) then Bumped(tree[i], won) else tree[i]
    decreases j
  {
    var bumped := tree[j := Bumped(tree[j], won)];
    assert Linked(bumped);
    if tree[j].parent.None? then bumped
    else
      var p := tree[j].parent.value;
      var r := Propagate(bumped, p, won);
      assert forall i :: 0 <= i < |tree| ==> (OnPath(bumped, p, i) <==> OnPath(tree, p, i)) by {
        forall i | 0 <= i < |tree| ensures OnPath(bumped, p, i) <==> OnPath(tree, p, i) {
          OnPathSameLinks(tree, bumped, p, i);
        }
      }
      OnPathBelow(tree, p, j);
      r
  }

  /** `OnPath` depends only on the parent links. */
  lemma {:induction false} OnPathSameLinks(a: seq<Node>, b: seq<Node>, j: nat, i: nat)
    requires Linked(a) && Linked(b) && |a| == |b| && j < |a|
    requires forall k :: 0 <= k < |a| ==> a[k].parent == b[k].parent
    ensures OnPath(a, j, i) <==> OnPath(b, j, i)
    decreases j
  {
    if a[j].parent.Some? {
      OnPathSameLinks(a, b, a[j].parent.value, i);
    }
  }

  /** `backpropogation`: the simulation counts as won when the searcher's bid equals
      the tricks it took in the final state; every node from `explore` up to the
      root gets one more visit, and one more win when won and its move was the
      searcher's. Nodes off the path are unchanged, and no node wins more often
      than it is visited. */
  function Backpropagation(s: Search, final: GameState.State, explore: nat): (r: Result<Search>)
    requires Valid(s) && explore < |s.tree|
    ensures r.Success? <==> GameState.EndTrickInfo(final, s.player).Success?
    ensures r.Success? ==>
      var (bid, taken) := GameState.EndTrickInfo(final, s.player).value;
      && r.value.frontier == s.frontier && r.value.player == s.player
      && |r.value.tree| == |s.tree|
      && forall i :: 0 <= i < |s.tree| ==>
           r.value.tree[i] == if OnPath(s.tree, explore, i) then Bumped(s.tree[i], bid == taken) else s.tree[i]
    ensures r.Success? ==> Valid(r.value)
    ensures r.Success? && Counted(s.tree) ==> Counted(r.value.tree)
  {
    match GameState.EndTrickInfo(final, s.player)
    case Failure(f) => Failure(f)
    case Success(info) =>
      var tree := Propagate(s.tree, explore, info.0 == info.1);
      assert Linked(tree) by {
        assert forall i :: 0 <= i < |tree| ==> tree[i].parent == s.tree[i].parent && tree[i].children == s.tree[i].children;
      }
      Success(s.(tree := tree))
  }

  // ---------------------------------------------------------------------------
  // The simulated opponents' cards

  /** `random_select`: a card drawn as the random participant draws it, following
      the state's leading suit when possible, and the hand without it. */
  function RandomSelect(hand: seq<Card>, state: GameState.State, pick: nat): (r: Result<(Card, seq<Card>)>)
    ensures r.Success? <==> |hand| > 0
    ensures r.Success? ==> r.value.0 in FollowSuitCandidates(hand, state.leadingSuit)
    ensures r.Success? ==> forall x :: x in r.value.1 <==> x in hand && x != r.value.0
  {
    RandomPlayer.DrawReachable(hand, state.leadingSuit, if |hand| > 0 then hand[0] else Card(Clubs, Two));
    var r := RandomPlayer.Draw(hand, state.leadingSuit, pick);
    assert r.Success? ==> r.value.0 in FollowSuitCandidates(hand, state.leadingSuit) by {
      if r.Success? {
        RandomPlayer.DrawReachable(hand, state.leadingSuit, r.value.0);
      }
    }
    r
  }

  /** Taking every card of `cards` out of `deck`, one after another. */
  function WithoutAll(deck: seq<Card>, cards: seq<Card>): (r: seq<Card>)
    ensures forall x :: x in r <==> x in deck && x !in cards
    ensures Distinct(deck) ==> Distinct(r)
    decreases |cards|
  {
    if cards == [] then deck
    else
      assert forall x :: x in cards <==> x == cards[0] || x in cards[1..];
      WithoutAll(Without(deck, cards[0]), cards[1..])
  }

  /** `available_cards`: a fresh deck without the searcher's hand and the played
      cards. Every card is in exactly one of the three: the result, the hand, or
      the played cards (or both of the latter two). */
  function AvailableCards(hand: seq<Card>, played: seq<Card>): (r: seq<Card>)
    ensures Distinct(r)
    ensures forall x :: x in r <==> x !in hand && x !in played
  {
    WithoutAll(Deck(), hand + played)
  }
}
