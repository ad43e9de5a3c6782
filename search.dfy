/**
 * Minimax search with alpha-beta pruning and a depth cutoff (AlphaBetaDL.py).
 *
 * The engine only talks to a game through its adapter operations, so the game is
 * a record of total functions. `rank` is not an adapter operation: it is the
 * termination measure a finite game (or a depth limit) provides, and `Finite`
 * says it drops from every expanded node to each of its children.
 */
module Search {
  import opened Wrappers

  /** The "clumsy way to represent a large value": 2^20, used as +/- infinity. */
  const Infinity: int := 0x10_0000

  datatype Game<!S, !A> = Game(
    isTerminal: S -> bool,
    utility: S -> int,
    cutoffTest: (S, nat) -> bool,
    eval: S -> int,
    actions: S -> seq<A>,
    result: (S, A) -> S,
    rank: (S, nat) -> nat)

  /** A node that is neither terminal nor cut off is expanded over its actions. */
  predicate Expands<S, A>(g: Game<S, A>, s: S, depth: nat) {
    !g.isTerminal(s) && !g.cutoffTest(s, depth)
  }

  function Child<S, A>(g: Game<S, A>, s: S, i: nat): S
    requires i < |g.actions(s)|
  {
    g.result(s, g.actions(s)[i])
  }

  ghost predicate Descends<S, A>(g: Game<S, A>, s: S, depth: nat) {
    forall i :: 0 <= i < |g.actions(s)| ==> g.rank(Child(g, s, i), depth + 1) < g.rank(s, depth)
  }

  /** Every expansion leads to children of smaller rank: the search terminates. */
  ghost predicate Finite<S(!new), A>(g: Game<S, A>) {
    forall s, depth: nat :: Expands(g, s, depth) ==> Descends(g, s, depth)
  }

  /** Every leaf value lies strictly between the two sentinels. */
  ghost predicate LeafBounded<S(!new), A>(g: Game<S, A>) {
    forall s :: -Infinity < g.utility(s) < Infinity && -Infinity < g.eval(s) < Infinity
  }

  /** The value `best` starts from before any child is seen. */
  function Sentinel(maxToMove: bool): int {
    if maxToMove then -Infinity else Infinity
  }

  // ---------------------------------------------------------------------------
  // Plain minimax: the reference the pruned search is measured against.
  // ---------------------------------------------------------------------------

  function Minimax<S(!new), A>(g: Game<S, A>, s: S, depth: nat, maxToMove: bool): int
    requires Finite(g)
    decreases g.rank(s, depth), 1, 0
  {
    if g.isTerminal(s) then g.utility(s)
    else if g.cutoffTest(s, depth) then g.eval(s)
    else MinimaxFrom(g, s, depth, maxToMove, 0, Sentinel(maxToMove))
  }

  /** Folds the children from index `i` on into `best`, without any pruning. */
  function MinimaxFrom<S(!new), A>(g: Game<S, A>, s: S, depth: nat, maxToMove: bool, i: nat, best: int): int
    requires Finite(g) && Expands(g, s, depth) && i <= |g.actions(s)|
    decreases g.rank(s, depth), 0, |g.actions(s)| - i
  {
    if i == |g.actions(s)| then best
    else
      assert Descends(g, s, depth);
      var v := Minimax(g, Child(g, s, i), depth + 1, !maxToMove);
      MinimaxFrom(g, s, depth, maxToMove, i + 1, if maxToMove then Max(best, v) else Min(best, v))
  }

  /** Number of expanded nodes of the whole tree below `s`, as unpruned minimax visits it. */
  function FullCount<S(!new), A>(g: Game<S, A>, s: S, depth: nat): nat
    requires Finite(g)
    decreases g.rank(s, depth), 1, 0
  {
    if Expands(g, s, depth) then 1 + FullCountFrom(g, s, depth, 0) else 0
  }

  function FullCountFrom<S(!new), A>(g: Game<S, A>, s: S, depth: nat, i: nat): nat
    requires Finite(g) && Expands(g, s, depth) && i <= |g.actions(s)|
    decreases g.rank(s, depth), 0, |g.actions(s)| - i
  {
    if i == |g.actions(s)| then 0
    else
      assert Descends(g, s, depth);
      FullCount(g, Child(g, s, i), depth + 1) + FullCountFrom(g, s, depth, i + 1)
  }

  // ---------------------------------------------------------------------------
  // What __max_value / __min_value compute: the value and the expansions counted.
  // ---------------------------------------------------------------------------

  datatype Outcome = Outcome(value: int, nodes: nat)

  function Pruned<S(!new), A>(g: Game<S, A>, s: S, depth: nat, maxToMove: bool, alpha: int, beta: int): Outcome
    requires Finite(g)
    decreases g.rank(s, depth), 1, 0
  {
    if g.isTerminal(s) then Outcome(g.utility(s), 0)
    else if g.cutoffTest(s, depth) then Outcome(g.eval(s), 0)
    else
      var o := PrunedFrom(g, s, depth, maxToMove, 0, alpha, beta, Sentinel(maxToMove));
      Outcome(o.value, o.nodes + 1)
  }

  /** The loop over the actions from index `i` on, with the current window and best value. */
  function PrunedFrom<S(!new), A>(g: Game<S, A>, s: S, depth: nat, maxToMove: bool, i: nat,
                                  alpha: int, beta: int, best: int): Outcome
    requires Finite(g) && Expands(g, s, depth) && i <= |g.actions(s)|
    decreases g.rank(s, depth), 0, |g.actions(s)| - i
  {
    if i == |g.actions(s)| then Outcome(best, 0)
    else
      assert Descends(g, s, depth);
      var c := Pruned(g, Child(g, s, i), depth + 1, !maxToMove, alpha, beta);
      if maxToMove then
        var best' := if c.value > best then c.value else best;
        if best' >= beta then Outcome(best', c.nodes)
        else
          var rest := PrunedFrom(g, s, depth, true, i + 1, Max(alpha, best'), beta, best');
          Outcome(rest.value, c.nodes + rest.nodes)
      else
        var best' := if c.value < best then c.value else best;
        if best' <= alpha then Outcome(best', c.nodes)
        else
          var rest := PrunedFrom(g, s, depth, false, i + 1, alpha, Min(beta, best'), best');
          Outcome(rest.value, c.nodes + rest.nodes)
  }

  // ---------------------------------------------------------------------------
  // What minimax_decision_max / minimax_decision_min compute.
  // ---------------------------------------------------------------------------

  /** SearchTerminationRecord without its timing field. */
  datatype SearchRecord<A> = SearchRecord(value: int, move: Option<A>, nodes: nat)

  function Decide<S(!new), A>(g: Game<S, A>, s: S, maxToMove: bool): SearchRecord<A>
    requires Finite(g)
  {
    var r := DecideFrom(g, s, maxToMove, 0, -Infinity, Infinity, Sentinel(maxToMove), None);
    SearchRecord(r.value, r.move, r.nodes + 1)
  }

  /** The root loop from index `i` on: every action is searched, none is pruned. */
  function DecideFrom<S(!new), A>(g: Game<S, A>, s: S, maxToMove: bool, i: nat,
                                  alpha: int, beta: int, best: int, move: Option<A>): SearchRecord<A>
    requires Finite(g) && i <= |g.actions(s)|
    decreases |g.actions(s)| - i
  {
    if i == |g.actions(s)| then SearchRecord(best, move, 0)
    else
      var c := Pruned(g, Child(g, s, i), 1, !maxToMove, alpha, beta);
      var better := if maxToMove then c.value > best else c.value < best;
      var best' := if better then c.value else best;
      var move' := if better then Some(g.actions(s)[i]) else move;
      var rest := if maxToMove then DecideFrom(g, s, true, i + 1, Max(alpha, best'), beta, best', move')
                  else DecideFrom(g, s, false, i + 1, alpha, Min(beta, best'), best', move');
      SearchRecord(rest.value, rest.move, c.nodes + rest.nodes)
  }

  /** The minimax values of the root's children, which are searched at depth 1. */
  function ChildValues<S(!new), A>(g: Game<S, A>, s: S, maxToMove: bool): (vs: seq<int>)
    requires Finite(g)
    ensures |vs| == |g.actions(s)|
  {
    seq(|g.actions(s)|, i requires 0 <= i < |g.actions(s)| => Minimax(g, Child(g, s, i), 1, !maxToMove))
  }

  /** The largest (or smallest) of `best` and the values from index `i` on. */
  function ExtremeFrom(vs: seq<int>, maxToMove: bool, i: nat, best: int): (e: int)
    requires i <= |vs|
    decreases |vs| - i
    ensures maxToMove ==> e >= best && forall j :: i <= j < |vs| ==> vs[j] <= e
    ensures !maxToMove ==> e <= best && forall j :: i <= j < |vs| ==> vs[j] >= e
    ensures e == best || e in vs[i..]
  {
    if i == |vs| then best
    else ExtremeFrom(vs, maxToMove, i + 1, if maxToMove then Max(best, vs[i]) else Min(best, vs[i]))
  }

  /** The unpruned value of the root, computed the way the root loop does (no leaf test at the root). */
  function RootMinimax<S(!new), A>(g: Game<S, A>, s: S, maxToMove: bool): int
    requires Finite(g)
  {
    ExtremeFrom(ChildValues(g, s, maxToMove), maxToMove, 0, Sentinel(maxToMove))
  }

  /** The first index at or after `i` holding `v`, or |vs| if there is none. */
  function FirstFrom(vs: seq<int>, i: nat, v: int): (k: nat)
    requires i <= |vs|
    decreases |vs| - i
    ensures i <= k <= |vs|
    ensures k < |vs| <==> v in vs[i..]
    ensures k < |vs| ==> vs[k] == v
    ensures forall j :: i <= j < k ==> vs[j] != v
  {
    if i == |vs| then |vs|
    else if vs[i] == v then i
    else FirstFrom(vs, i + 1, v)
  }

  /** Expansions unpruned minimax would count for a root decision: the root plus every subtree. */
  function RootFullCount<S(!new), A>(g: Game<S, A>, s: S, i: nat): nat
    requires Finite(g) && i <= |g.actions(s)|
    decreases |g.actions(s)| - i
  {
    if i == |g.actions(s)| then 0
    else FullCount(g, Child(g, s, i), 1) + RootFullCount(g, s, i + 1)
  }

  /**
   * The fail-soft window property of a search result `r` against the true value `v`:
   * a result at or below alpha bounds the true value from above, one at or above
   * beta bounds it from below, and one strictly inside the window is exact.
   */
  predicate FailSoft(r: int, v: int, alpha: int, beta: int) {
    && (r <= alpha ==> v <= r)
    && (r >= beta ==> v >= r)
    && (alpha < r < beta ==> v == r)
  }

  // ---------------------------------------------------------------------------
  // Properties of the folds.
  // ---------------------------------------------------------------------------

  /** Folding more children never makes Max's best worse (or Min's best larger). */
  lemma {:induction false} MinimaxFromBound<S(!new), A>(g: Game<S, A>, s: S, depth: nat, maxToMove: bool, i: nat, best: int)
    requires Finite(g) && Expands(g, s, depth) && i <= |g.actions(s)|
    ensures maxToMove ==> MinimaxFrom(g, s, depth, maxToMove, i, best) >= best
    ensures !maxToMove ==> MinimaxFrom(g, s, depth, maxToMove, i, best) <= best
    decreases |g.actions(s)| - i
  {
    if i < |g.actions(s)| {
      var v := Minimax(g, Child(g, s, i), depth + 1, !maxToMove);
      MinimaxFromBound(g, s, depth, maxToMove, i + 1, if maxToMove then Max(best, v) else Min(best, v));
    }
  }

  /** Raising (lowering) the starting value by `x` raises (lowers) the fold the same way. */
  lemma {:induction false} MinimaxFromShift<S(!new), A>(g: Game<S, A>, s: S, depth: nat, maxToMove: bool, i: nat, best: int, x: int)
    requires Finite(g) && Expands(g, s, depth) && i <= |g.actions(s)|
    ensures maxToMove ==> MinimaxFrom(g, s, depth, true, i, Max(best, x)) == Max(MinimaxFrom(g, s, depth, true, i, best), x)
    ensures !maxToMove ==> MinimaxFrom(g, s, depth, false, i, Min(best, x)) == Min(MinimaxFrom(g, s, depth, false, i, best), x)
    decreases |g.actions(s)| - i
  {
    if i < |g.actions(s)| {
      var v := Minimax(g, Child(g, s, i), depth + 1, !maxToMove);
      if maxToMove {
        assert Max(Max(best, x), v) == Max(Max(best, v), x);
        MinimaxFromShift(g, s, depth, true, i + 1, Max(best, v), x);
      } else {
        assert Min(Min(best, x), v) == Min(Min(best, v), x);
        MinimaxFromShift(g, s, depth, false, i + 1, Min(best, v), x);
      }
    }
  }

  /** The pruned loop never returns worse than the best it started from. */
  lemma {:induction false} PrunedFromBound<S(!new), A>(g: Game<S, A>, s: S, depth: nat, maxToMove: bool, i: nat,
                                                       alpha: int, beta: int, best: int)
    requires Finite(g) && Expands(g, s, depth) && i <= |g.actions(s)|
    ensures maxToMove ==> PrunedFrom(g, s, depth, maxToMove, i, alpha, beta, best).value >= best
    ensures !maxToMove ==> PrunedFrom(g, s, depth, maxToMove, i, alpha, beta, best).value <= best
    decreases |g.actions(s)| - i
  {
    if i < |g.actions(s)| {
      var c := Pruned(g, Child(g, s, i), depth + 1, !maxToMove, alpha, beta);
      if maxToMove {
        var best' := if c.value > best then c.value else best;
        PrunedFromBound(g, s, depth, true, i + 1, Max(alpha, best'), beta, best');
      } else {
        var best' := if c.value < best then c.value else best;
        PrunedFromBound(g, s, depth, false, i + 1, alpha, Min(beta, best'), best');
      }
    }
  }

  // ---------------------------------------------------------------------------
  // Alpha-beta is sound: the window (fail-soft) theorem.
  // ---------------------------------------------------------------------------

  /**
   * For any window alpha < beta, what __max_value / __min_value return relates to the
   * unpruned minimax value as FailSoft says: exact strictly inside the window, and an
   * upper (lower) bound of the true value at or below alpha (at or above beta).
   */
  lemma {:induction false} PrunedSound<S(!new), A>(g: Game<S, A>, s: S, depth: nat, maxToMove: bool, alpha: int, beta: int)
    requires Finite(g) && alpha < beta
    ensures FailSoft(Pruned(g, s, depth, maxToMove, alpha, beta).value, Minimax(g, s, depth, maxToMove), alpha, beta)
    decreases g.rank(s, depth), 1, 0
  {
    if Expands(g, s, depth) {
      PrunedFromSound(g, s, depth, maxToMove, 0, alpha, beta, Sentinel(maxToMove));
    }
  }

  lemma {:induction false} PrunedFromSound<S(!new), A>(g: Game<S, A>, s: S, depth: nat, maxToMove: bool, i: nat,
                                                       alpha: int, beta: int, best: int)
    requires Finite(g) && Expands(g, s, depth) && i <= |g.actions(s)| && alpha < beta
    ensures FailSoft(PrunedFrom(g, s, depth, maxToMove, i, alpha, beta, best).value,
                     MinimaxFrom(g, s, depth, maxToMove, i, best), alpha, beta)
    decreases g.rank(s, depth), 0, |g.actions(s)| - i, 1
  {
    if i < |g.actions(s)| {
      if maxToMove {
        PrunedFromSoundMax(g, s, depth, i, alpha, beta, best);
      } else {
        PrunedFromSoundMin(g, s, depth, i, alpha, beta, best);
      }
    }
  }

  /** One step of PrunedFromSound for Max: the child's bound, then the rest of the row. */
  lemma {:induction false} PrunedFromSoundMax<S(!new), A>(g: Game<S, A>, s: S, depth: nat, i: nat,
                                                          alpha: int, beta: int, best: int)
    requires Finite(g) && Expands(g, s, depth) && i < |g.actions(s)| && alpha < beta
    ensures FailSoft(PrunedFrom(g, s, depth, true, i, alpha, beta, best).value,
                     MinimaxFrom(g, s, depth, true, i, best), alpha, beta)
    decreases g.rank(s, depth), 0, |g.actions(s)| - i, 0
  {
    assert Descends(g, s, depth);
    var child := Child(g, s, i);
    var c := Pruned(g, child, depth + 1, false, alpha, beta).value;
    var v := Minimax(g, child, depth + 1, false);
    PrunedSound(g, child, depth + 1, false, alpha, beta);
    var best' := if c > best then c else best;
    MinimaxFromBound(g, s, depth, true, i + 1, Max(best, v));
    if best' < beta {
      var alpha' := Max(alpha, best');
      PrunedFromSound(g, s, depth, true, i + 1, alpha', beta, best');
      PrunedFromBound(g, s, depth, true, i + 1, alpha', beta, best');
      MinimaxFromBound(g, s, depth, true, i + 1, best');
      MinimaxFromShift(g, s, depth, true, i + 1, best, v);
      MinimaxFromShift(g, s, depth, true, i + 1, best, c);
    }
  }

  /** One step of PrunedFromSound for Min: the child's bound, then the rest of the row. */
  lemma {:induction false} PrunedFromSoundMin<S(!new), A>(g: Game<S, A>, s: S, depth: nat, i: nat,
                                                          alpha: int, beta: int, best: int)
    requires Finite(g) && Expands(g, s, depth) && i < |g.actions(s)| && alpha < beta
    ensures FailSoft(PrunedFrom(g, s, depth, false, i, alpha, beta, best).value,
                     MinimaxFrom(g, s, depth, false, i, best), alpha, beta)
    decreases g.rank(s, depth), 0, |g.actions(s)| - i, 0
  {
    assert Descends(g, s, depth);
    var child := Child(g, s, i);
    var c := Pruned(g, child, depth + 1, true, alpha, beta).value;
    var v := Minimax(g, child, depth + 1, true);
    PrunedSound(g, child, depth + 1, true, alpha, beta);
    var best' := if c < best then c else best;
    MinimaxFromBound(g, s, depth, false, i + 1, Min(best, v));
    if best' > alpha {
      var beta' := Min(beta, best');
      PrunedFromSound(g, s, depth, false, i + 1, alpha, beta', best');
      PrunedFromBound(g, s, depth, false, i + 1, alpha, beta', best');
      MinimaxFromBound(g, s, depth, false, i + 1, best');
      MinimaxFromShift(g, s, depth, false, i + 1, best, v);
      MinimaxFromShift(g, s, depth, false, i + 1, best, c);
    }
  }

  // ---------------------------------------------------------------------------
  // The root decision equals plain minimax.
  // ---------------------------------------------------------------------------

  /** With leaf values strictly inside the sentinels, every minimax value lies within them. */
  lemma {:induction false} MinimaxRange<S(!new), A>(g: Game<S, A>, s: S, depth: nat, maxToMove: bool)
    requires Finite(g) && LeafBounded(g)
    ensures -Infinity <= Minimax(g, s, depth, maxToMove) <= Infinity
    decreases g.rank(s, depth), 1, 0
  {
    if Expands(g, s, depth) {
      MinimaxFromRange(g, s, depth, maxToMove, 0, Sentinel(maxToMove));
    }
  }

  lemma {:induction false} MinimaxFromRange<S(!new), A>(g: Game<S, A>, s: S, depth: nat, maxToMove: bool, i: nat, best: int)
    requires Finite(g) && LeafBounded(g) && Expands(g, s, depth) && i <= |g.actions(s)|
    requires -Infinity <= best <= Infinity
    ensures -Infinity <= MinimaxFrom(g, s, depth, maxToMove, i, best) <= Infinity
    decreases g.rank(s, depth), 0, |g.actions(s)| - i
  {
    if i < |g.actions(s)| {
      assert Descends(g, s, depth);
      var v := Minimax(g, Child(g, s, i), depth + 1, !maxToMove);
      MinimaxRange(g, Child(g, s, i), depth + 1, !maxToMove);
      MinimaxFromRange(g, s, depth, maxToMove, i + 1, if maxToMove then Max(best, v) else Min(best, v));
    }
  }

  /** With leaf values strictly inside the sentinels, every pruned result lies within them. */
  lemma {:induction false} PrunedRange<S(!new), A>(g: Game<S, A>, s: S, depth: nat, maxToMove: bool, alpha: int, beta: int)
    requires Finite(g) && LeafBounded(g)
    ensures -Infinity <= Pruned(g, s, depth, maxToMove, alpha, beta).value <= Infinity
    decreases g.rank(s, depth), 1, 0
  {
    if Expands(g, s, depth) {
      PrunedFromRange(g, s, depth, maxToMove, 0, alpha, beta, Sentinel(maxToMove));
    }
  }

  lemma {:induction false} PrunedFromRange<S(!new), A>(g: Game<S, A>, s: S, depth: nat, maxToMove: bool, i: nat,
                                                       alpha: int, beta: int, best: int)
    requires Finite(g) && LeafBounded(g) && Expands(g, s, depth) && i <= |g.actions(s)|
    requires -Infinity <= best <= Infinity
    ensures -Infinity <= PrunedFrom(g, s, depth, maxToMove, i, alpha, beta, best).value <= Infinity
    decreases g.rank(s, depth), 0, |g.actions(s)| - i
  {
    if i < |g.actions(s)| {
      assert Descends(g, s, depth);
      var c := Pruned(g, Child(g, s, i), depth + 1, !maxToMove, alpha, beta);
      PrunedRange(g, Child(g, s, i), depth + 1, !maxToMove, alpha, beta);
      if maxToMove {
        var best' := if c.value > best then c.value else best;
        PrunedFromRange(g, s, depth, true, i + 1, Max(alpha, best'), beta, best');
      } else {
        var best' := if c.value < best then c.value else best;
        PrunedFromRange(g, s, depth, false, i + 1, alpha, Min(beta, best'), best');
      }
    }
  }

  /**
   * The root loop from index `i`, entered with Max's alpha (Min's beta) equal to the
   * best so far, ends with the extreme child value, and its move is the first action
   * reaching that value, or the move it started with when nothing improved on `best`.
   */
  lemma {:induction false} DecideFromSound<S(!new), A>(g: Game<S, A>, s: S, maxToMove: bool, i: nat,
                                                       alpha: int, beta: int, best: int, move: Option<A>)
    requires Finite(g) && LeafBounded(g) && i <= |g.actions(s)|
    requires -Infinity <= best <= Infinity
    requires if maxToMove then alpha == best && beta == Infinity else alpha == -Infinity && beta == best
    ensures var vs := ChildValues(g, s, maxToMove);
            var e := ExtremeFrom(vs, maxToMove, i, best);
            var r := DecideFrom(g, s, maxToMove, i, alpha, beta, best, move);
            && r.value == e
            && r.move == if e == best then move else Some(g.actions(s)[FirstFrom(vs, i, e)])
    decreases |g.actions(s)| - i
  {
    if i < |g.actions(s)| {
      var vs := ChildValues(g, s, maxToMove);
      var child := Child(g, s, i);
      var c := Pruned(g, child, 1, !maxToMove, alpha, beta).value;
      var v := vs[i];
      assert v == Minimax(g, child, 1, !maxToMove);
      PrunedRange(g, child, 1, !maxToMove, alpha, beta);
      MinimaxRange(g, child, 1, !maxToMove);
      if alpha < beta {
        PrunedSound(g, child, 1, !maxToMove, alpha, beta);
      }
      var better := if maxToMove then c > best else c < best;
      var best' := if better then c else best;
      var move' := if better then Some(g.actions(s)[i]) else move;
      if maxToMove {
        assert better <==> v > best;
        assert best' == Max(best, v);
        DecideFromSound(g, s, true, i + 1, Max(alpha, best'), beta, best', move');
      } else {
        assert better <==> v < best;
        assert best' == Min(best, v);
        DecideFromSound(g, s, false, i + 1, alpha, Min(beta, best'), best', move');
      }
    }
  }

  /**
   * Root equals minimax: when every leaf value lies strictly inside (-2^20, 2^20),
   * minimax_decision_max / _min return the unpruned minimax value of the root, and
   * their move is the first action whose child has that value (strict comparisons
   * keep the earliest). The move is None exactly when the value is the sentinel,
   * which is the case when there are no actions.
   */
  lemma DecideIsMinimax<S(!new), A>(g: Game<S, A>, s: S, maxToMove: bool)
    requires Finite(g) && LeafBounded(g)
    ensures var vs := ChildValues(g, s, maxToMove);
            var v := RootMinimax(g, s, maxToMove);
            var r := Decide(g, s, maxToMove);
            && r.value == v
            && (r.move == None <==> v == Sentinel(maxToMove))
            && (v != Sentinel(maxToMove) ==>
                  var k := FirstFrom(vs, 0, v);
                  && k < |vs| && vs[k] == v
                  && r.move == Some(g.actions(s)[k])
                  && forall j :: 0 <= j < k ==> vs[j] != v)
  {
    DecideFromSound(g, s, maxToMove, 0, -Infinity, Infinity, Sentinel(maxToMove), None);
  }

  /** When the root itself would be expanded at depth 0, the root loop agrees with Minimax there. */
  lemma RootIsMinimaxAtDepthZero<S(!new), A>(g: Game<S, A>, s: S, maxToMove: bool)
    requires Finite(g) && Expands(g, s, 0)
    ensures RootMinimax(g, s, maxToMove) == Minimax(g, s, 0, maxToMove)
  {
    RootFoldIsMinimaxFrom(g, s, maxToMove, 0, Sentinel(maxToMove));
  }

  lemma {:induction false} RootFoldIsMinimaxFrom<S(!new), A>(g: Game<S, A>, s: S, maxToMove: bool, i: nat, best: int)
    requires Finite(g) && Expands(g, s, 0) && i <= |g.actions(s)|
    ensures ExtremeFrom(ChildValues(g, s, maxToMove), maxToMove, i, best) == MinimaxFrom(g, s, 0, maxToMove, i, best)
    decreases |g.actions(s)| - i
  {
    if i < |g.actions(s)| {
      var v := ChildValues(g, s, maxToMove)[i];
      RootFoldIsMinimaxFrom(g, s, maxToMove, i + 1, if maxToMove then Max(best, v) else Min(best, v));
    }
  }

  // ---------------------------------------------------------------------------
  // Node counting.
  // ---------------------------------------------------------------------------

  /** Pruning never expands more nodes than unpruned minimax does on the same tree. */
  lemma {:induction false} PrunedNodesBounded<S(!new), A>(g: Game<S, A>, s: S, depth: nat, maxToMove: bool, alpha: int, beta: int)
    requires Finite(g)
    ensures Pruned(g, s, depth, maxToMove, alpha, beta).nodes <= FullCount(g, s, depth)
    decreases g.rank(s, depth), 1, 0
  {
    if Expands(g, s, depth) {
      PrunedFromNodesBounded(g, s, depth, maxToMove, 0, alpha, beta, Sentinel(maxToMove));
    }
  }

  lemma {:induction false} PrunedFromNodesBounded<S(!new), A>(g: Game<S, A>, s: S, depth: nat, maxToMove: bool, i: nat,
                                                              alpha: int, beta: int, best: int)
    requires Finite(g) && Expands(g, s, depth) && i <= |g.actions(s)|
    ensures PrunedFrom(g, s, depth, maxToMove, i, alpha, beta, best).nodes <= FullCountFrom(g, s, depth, i)
    decreases g.rank(s, depth), 0, |g.actions(s)| - i
  {
    if i < |g.actions(s)| {
      assert Descends(g, s, depth);
      var c := Pruned(g, Child(g, s, i), depth + 1, !maxToMove, alpha, beta);
      PrunedNodesBounded(g, Child(g, s, i), depth + 1, !maxToMove, alpha, beta);
      if maxToMove {
        var best' := if c.value > best then c.value else best;
        PrunedFromNodesBounded(g, s, depth, true, i + 1, Max(alpha, best'), beta, best');
      } else {
        var best' := if c.value < best then c.value else best;
        PrunedFromNodesBounded(g, s, depth, false, i + 1, alpha, Min(beta, best'), best');
      }
    }
  }

  /**
   * A root decision counts the root once and then at most what unpruned minimax
   * expands below it; leaves (terminal or cut off) are never counted.
   */
  lemma DecideNodesBounded<S(!new), A>(g: Game<S, A>, s: S, maxToMove: bool)
    requires Finite(g)
    ensures 1 <= Decide(g, s, maxToMove).nodes <= 1 + RootFullCount(g, s, 0)
  {
    DecideFromNodesBounded(g, s, maxToMove, 0, -Infinity, Infinity, Sentinel(maxToMove), None);
  }

  lemma {:induction false} DecideFromNodesBounded<S(!new), A>(g: Game<S, A>, s: S, maxToMove: bool, i: nat,
                                                              alpha: int, beta: int, best: int, move: Option<A>)
    requires Finite(g) && i <= |g.actions(s)|
    ensures DecideFrom(g, s, maxToMove, i, alpha, beta, best, move).nodes <= RootFullCount(g, s, i)
    decreases |g.actions(s)| - i
  {
    if i < |g.actions(s)| {
      var c := Pruned(g, Child(g, s, i), 1, !maxToMove, alpha, beta);
      PrunedNodesBounded(g, Child(g, s, i), 1, !maxToMove, alpha, beta);
      var better := if maxToMove then c.value > best else c.value < best;
      var best' := if better then c.value else best;
      var move' := if better then Some(g.actions(s)[i]) else move;
      if maxToMove {
        DecideFromNodesBounded(g, s, true, i + 1, Max(alpha, best'), beta, best', move');
      } else {
        DecideFromNodesBounded(g, s, false, i + 1, alpha, Min(beta, best'), best', move');
      }
    }
  }

  /**
   * Depth cutoff fidelity: children of the root are searched at depth 1, so a game
   * that cuts off every state at depth 1 has only the root expanded.
   */
  lemma DepthOneCutoffExpandsOnlyRoot<S(!new), A>(g: Game<S, A>, s: S, maxToMove: bool)
    requires Finite(g) && forall t :: g.cutoffTest(t, 1)
    ensures Decide(g, s, maxToMove).nodes == 1
  {
    DecideFromLeavesOnly(g, s, maxToMove, 0, -Infinity, Infinity, Sentinel(maxToMove), None);
  }

  lemma {:induction false} DecideFromLeavesOnly<S(!new), A>(g: Game<S, A>, s: S, maxToMove: bool, i: nat,
                                                            alpha: int, beta: int, best: int, move: Option<A>)
    requires Finite(g) && (forall t :: g.cutoffTest(t, 1)) && i <= |g.actions(s)|
    ensures DecideFrom(g, s, maxToMove, i, alpha, beta, best, move).nodes == 0
    decreases |g.actions(s)| - i
  {
    if i < |g.actions(s)| {
      var c := Pruned(g, Child(g, s, i), 1, !maxToMove, alpha, beta);
      assert g.cutoffTest(Child(g, s, i), 1);
      var better := if maxToMove then c.value > best else c.value < best;
      var best' := if better then c.value else best;
      var move' := if better then Some(g.actions(s)[i]) else move;
      if maxToMove {
        DecideFromLeavesOnly(g, s, true, i + 1, Max(alpha, best'), beta, best', move');
      } else {
        DecideFromLeavesOnly(g, s, false, i + 1, alpha, Min(beta, best'), best', move');
      }
    }
  }

  // ---------------------------------------------------------------------------
  // A two-ply example: the root has actions 'A' and 'B' leading to terminal
  // states worth 10 and -5.
  // ---------------------------------------------------------------------------

  function TwoLeafGame(): Game<int, char> {
    Game(
      s => s != 0,
      s => if s == 1 then 10 else -5,
      (s, d) => false,
      s => 0,
      s => if s == 0 then ['A', 'B'] else [],
      (s, a) => if a == 'A' then 1 else 2,
      (s, d) => if s == 0 then 1 else 0)
  }

  lemma TwoLeafGameDecisions()
    ensures Finite(TwoLeafGame())
    ensures Decide(TwoLeafGame(), 0, true) == SearchRecord(10, Some('A'), 1)
    ensures Decide(TwoLeafGame(), 0, false) == SearchRecord(-5, Some('B'), 1)
  {
    var g := TwoLeafGame();
    forall s, depth: nat | Expands(g, s, depth) ensures Descends(g, s, depth) {
      assert s == 0;
    }
    assert Child(g, 0, 0) == 1 && Child(g, 0, 1) == 2;
  }
}
