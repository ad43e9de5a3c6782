/**
 * The Jedi chess rules seen through the adapter the searcher uses: the game object
 * of JediChessGame.py handed to AlphaBetaDL.py, with the depth limit of the Game
 * object as the searcher's cutoff.
 */
module JediSearch {
  import opened Search
  import opened JediRules

  /** actions on a state whose board covers every cell; no moves otherwise. */
  function Moves(st: State): seq<Action> {
    if Legal(st) then AllMoves(st) else []
  }

  /** result where it cannot fail; the state itself otherwise. */
  function Next(st: State, a: Action): State {
    if ResultPre(st, a) then Successor(st, a) else st
  }

  /** How many more levels the depth limit lets the search expand below `depth`. */
  function DepthRank(depthLimit: int, depth: nat): nat {
    if depth <= depthLimit then depthLimit + 1 - depth else 0
  }

  /** The game as the searcher sees it, for a Game object with the given depth limit. */
  function JediGame(depthLimit: int): Game<State, Action> {
    Game(
      st => IsTerminal(st),
      st => Utility(st),
      (st, depth) => CutoffTest(depthLimit, depth),
      st => Eval(st),
      st => Moves(st),
      (st, a) => Next(st, a),
      (st, depth) => DepthRank(depthLimit, depth))
  }

  /**
   * With a positive depth limit every search terminates: a node is expanded only at a
   * depth within the limit, and each child sits one level deeper.
   */
  lemma DepthLimitedSearchTerminates(depthLimit: int)
    requires depthLimit > 0
    ensures Finite(JediGame(depthLimit))
  {
    var g := JediGame(depthLimit);
    forall st, depth: nat | Expands(g, st, depth)
      ensures Descends(g, st, depth)
    {
      assert depth <= depthLimit;
      assert g.rank(st, depth) == depthLimit + 1 - depth;
      forall i | 0 <= i < |g.actions(st)|
        ensures g.rank(Child(g, st, i), depth + 1) < g.rank(st, depth)
      {
        assert g.rank(Child(g, st, i), depth + 1) == DepthRank(depthLimit, depth + 1);
      }
    }
  }

  /** Terminal values lie strictly between the sentinels the searcher starts from. */
  lemma UtilityWithinSentinels(depthLimit: int, st: State)
    ensures -Infinity < JediGame(depthLimit).utility(st) < Infinity
    ensures JediGame(depthLimit).utility(st) == 0 <==> !st.cachedWin
  {
  }

  /**
   * On a consistent state the searcher expands exactly the generated moves, and every
   * child it visits is the state result builds: the fallback of Next is never taken.
   */
  lemma ChildIsSuccessor(depthLimit: int, st: State, i: nat)
    requires Consistent(st) && st.size >= 1 && i < |AllMoves(st)|
    ensures JediGame(depthLimit).actions(st) == AllMoves(st)
    ensures ResultPre(st, AllMoves(st)[i])
    ensures Child(JediGame(depthLimit), st, i) == Successor(st, AllMoves(st)[i])
  {
    var g := JediGame(depthLimit);
    var a := AllMoves(st)[i];
    assert a in AllMoves(st);
    MovesApplicable(st, a);
    assert g.actions(st) == AllMoves(st);
    assert Child(g, st, i) == Next(st, a);
  }

  /**
   * A depth limit of 1 searches the root's children at depth 1 and cuts every
   * grandchild off, which it scores with eval.
   */
  lemma DepthOneScoresGrandchildren(st: State)
    ensures !JediGame(1).cutoffTest(st, 1)
    ensures forall depth: nat :: depth >= 2 ==> JediGame(1).cutoffTest(st, depth)
  {
  }
}
