/**
 * The AlphaBeta searcher of AlphaBetaDL.py: a game adapter plus the counter
 * `nodesExpanded` that the recursive procedures bump as they expand nodes.
 * Each procedure is proved to compute what the corresponding function of module
 * Search says, and, through the lemmas there, to agree with plain minimax.
 */
module AlphaBetaDL {
  import opened Wrappers
  import opened Search

  class AlphaBeta<S(!new), A> {
    const game: Game<S, A>
    var nodesExpanded: nat

    constructor (game: Game<S, A>)
      ensures this.game == game && nodesExpanded == 0
    {
      this.game := game;
      nodesExpanded := 0;
    }

    /** The move Max should take in `state`; the counter is reset and the root counted once. */
    method MinimaxDecisionMax(state: S) returns (rec: SearchRecord<A>)
      requires Finite(game)
      modifies this
      ensures rec == Decide(game, state, true) && nodesExpanded == rec.nodes
      ensures |game.actions(state)| == 0 ==> rec == SearchRecord(-Infinity, None, 1)
      ensures 1 <= rec.nodes <= 1 + RootFullCount(game, state, 0)
      ensures LeafBounded(game) ==> rec.value == RootMinimax(game, state, true)
      ensures LeafBounded(game) && rec.value != -Infinity ==>
                var k := FirstFrom(ChildValues(game, state, true), 0, rec.value);
                k < |game.actions(state)| && rec.move == Some(game.actions(state)[k])
    {
      nodesExpanded := 0;
      var alpha, beta := -Infinity, Infinity;
      var best, bestAction := -Infinity, None;
      nodesExpanded := nodesExpanded + 1;
      var acts := game.actions(state);
      var i := 0;
      while i < |acts|
        invariant 0 <= i <= |acts|
        invariant var r := DecideFrom(game, state, true, i, alpha, beta, best, bestAction);
                  Decide(game, state, true) == SearchRecord(r.value, r.move, nodesExpanded + r.nodes)
      {
        var val := MinValue(Child(game, state, i), alpha, beta, 1);
        if val > best {
          best := val;
          bestAction := Some(acts[i]);
        }
        alpha := Max(alpha, best);
        i := i + 1;
      }
      rec := SearchRecord(best, bestAction, nodesExpanded);
      DecideNodesBounded(game, state, true);
      if LeafBounded(game) {
        DecideIsMinimax(game, state, true);
      }
    }

    /** The move Min should take in `state`; the counter is reset and the root counted once. */
    method MinimaxDecisionMin(state: S) returns (rec: SearchRecord<A>)
      requires Finite(game)
      modifies this
      ensures rec == Decide(game, state, false) && nodesExpanded == rec.nodes
      ensures |game.actions(state)| == 0 ==> rec == SearchRecord(Infinity, None, 1)
      ensures 1 <= rec.nodes <= 1 + RootFullCount(game, state, 0)
      ensures LeafBounded(game) ==> rec.value == RootMinimax(game, state, false)
      ensures LeafBounded(game) && rec.value != Infinity ==>
                var k := FirstFrom(ChildValues(game, state, false), 0, rec.value);
                k < |game.actions(state)| && rec.move == Some(game.actions(state)[k])
    {
      nodesExpanded := 0;
      var alpha, beta := -Infinity, Infinity;
      var best, bestAction := Infinity, None;
      nodesExpanded := nodesExpanded + 1;
      var acts := game.actions(state);
      var i := 0;
      while i < |acts|
        invariant 0 <= i <= |acts|
        invariant var r := DecideFrom(game, state, false, i, alpha, beta, best, bestAction);
                  Decide(game, state, false) == SearchRecord(r.value, r.move, nodesExpanded + r.nodes)
      {
        var val := MaxValue(Child(game, state, i), alpha, beta, 1);
        if val < best {
          best := val;
          bestAction := Some(acts[i]);
        }
        beta := Min(beta, best);
        i := i + 1;
      }
      rec := SearchRecord(best, bestAction, nodesExpanded);
      DecideNodesBounded(game, state, false);
      if LeafBounded(game) {
        DecideIsMinimax(game, state, false);
      }
    }

    /**
     * The value Max can obtain in `state`: utility if terminal, else eval if cut off,
     * else the best child value, returning early once it reaches beta.
     */
    method MaxValue(state: S, alpha: int, beta: int, depth: nat) returns (best: int)
      requires Finite(game)
      modifies this
      decreases game.rank(state, depth)
      ensures var o := Pruned(game, state, depth, true, alpha, beta);
              best == o.value && nodesExpanded == old(nodesExpanded) + o.nodes
      ensures game.isTerminal(state) ==> best == game.utility(state) && nodesExpanded == old(nodesExpanded)
      ensures !game.isTerminal(state) && game.cutoffTest(state, depth) ==>
                best == game.eval(state) && nodesExpanded == old(nodesExpanded)
      ensures alpha < beta ==> FailSoft(best, Minimax(game, state, depth, true), alpha, beta)
    {
      if game.isTerminal(state) {
        best := game.utility(state);
      } else if game.cutoffTest(state, depth) {
        best := game.eval(state);
      } else {
        best := -Infinity;
        nodesExpanded := nodesExpanded + 1;
        var acts := game.actions(state);
        var a := alpha;
        var i := 0;
        while i < |acts|
          invariant 0 <= i <= |acts|
          invariant var r := PrunedFrom(game, state, depth, true, i, a, beta, best);
                    && Pruned(game, state, depth, true, alpha, beta).value == r.value
                    && old(nodesExpanded) + Pruned(game, state, depth, true, alpha, beta).nodes == nodesExpanded + r.nodes
        {
          assert Descends(game, state, depth);
          var val := MinValue(Child(game, state, i), a, beta, depth + 1);
          if val > best {
            best := val;
          }
          if best >= beta {
            if alpha < beta {
              PrunedSound(game, state, depth, true, alpha, beta);
            }
            return;
          }
          a := Max(a, best);
          i := i + 1;
        }
      }
      if alpha < beta {
        PrunedSound(game, state, depth, true, alpha, beta);
      }
    }

    /**
     * The value Min can obtain in `state`: utility if terminal, else eval if cut off,
     * else the smallest child value, returning early once it reaches alpha.
     */
    method MinValue(state: S, alpha: int, beta: int, depth: nat) returns (best: int)
      requires Finite(game)
      modifies this
      decreases game.rank(state, depth)
      ensures var o := Pruned(game, state, depth, false, alpha, beta);
              best == o.value && nodesExpanded == old(nodesExpanded) + o.nodes
      ensures game.isTerminal(state) ==> best == game.utility(state) && nodesExpanded == old(nodesExpanded)
      ensures !game.isTerminal(state) && game.cutoffTest(state, depth) ==>
                best == game.eval(state) && nodesExpanded == old(nodesExpanded)
      ensures alpha < beta ==> FailSoft(best, Minimax(game, state, depth, false), alpha, beta)
    {
      if game.isTerminal(state) {
        best := game.utility(state);
      } else if game.cutoffTest(state, depth) {
        best := game.eval(state);
      } else {
        best := Infinity;
        nodesExpanded := nodesExpanded + 1;
        var acts := game.actions(state);
        var b := beta;
        var i := 0;
        while i < |acts|
          invariant 0 <= i <= |acts|
          invariant var r := PrunedFrom(game, state, depth, false, i, alpha, b, best);
                    && Pruned(game, state, depth, false, alpha, beta).value == r.value
                    && old(nodesExpanded) + Pruned(game, state, depth, false, alpha, beta).nodes == nodesExpanded + r.nodes
        {
          assert Descends(game, state, depth);
          var val := MaxValue(Child(game, state, i), alpha, b, depth + 1);
          if val < best {
            best := val;
          }
          if best <= alpha {
            if alpha < beta {
              PrunedSound(game, state, depth, false, alpha, beta);
            }
            return;
          }
          b := Min(b, best);
          i := i + 1;
        }
      }
      if alpha < beta {
        PrunedSound(game, state, depth, false, alpha, beta);
      }
    }
  }
}
