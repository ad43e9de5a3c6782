# Jedi chess and depth-limited alpha-beta search

This project models two Python files:

- **AlphaBetaDL.py**: a minimax searcher with alpha-beta pruning and a depth cutoff. It works with any game object that offers `is_terminal`, `utility`, `cutoff_test`, `eval`, `actions` and `result`. It counts the nodes it expands in `nodes_expanded`, and it uses `ifny = 2**20` as plus and minus infinity.
- **JediChessGame.py**: the game it is run on. The board is a dictionary from `(row, column)` to a cell string. Min plays one Sith ("S0"), who starts in the middle of the top row. Max plays a row of Rebels ("R0", "R1", ...) along the bottom row, plus any Jedi the Rebels become when they reach row 0. A `GameState` is updated in place; a `Game` generates moves, applies them to a clone, scores leaves and detects wins.

The project has six modules:

- `Wrappers` (wrappers.dfy): `Option`, `Max` and `Min`.
- `Search` (search.dfy): the searcher as pure functions over a game record. There are three of them:
  - `Minimax` is plain minimax, the reference;
  - `Pruned` is what `__max_value` / `__min_value` compute: the value and the number of expansions;
  - `Decide` is what `minimax_decision_max` / `_min` compute.

  This module also holds the theorems relating them:
  - the fail-soft window property;
  - the root value equals minimax, and the root move is the first best child;
  - pruning never expands more nodes than plain minimax;
  - the depth cutoff is respected.
- `AlphaBetaDL` (alphabeta.dfy): class `AlphaBeta` with the counter field `nodesExpanded`. Its four loops and recursive procedures are proved to compute exactly `Pruned` and `Decide`.
- `JediRules` (jedi_rules.dfy): the rules as functions on a value snapshot `State` of a `GameState`. It covers:
  - the initial position and the clone;
  - the move generators;
  - the three update procedures and `result`;
  - utility, eval, the terminal test and the win cache.

  It also holds lemmas about the generated moves, the initial position and the clone.
- `JediChessGame` (jedi_game.dfy): classes `GameState` and `Game`. Their methods update the fields in place. Each one is proved to produce the snapshot that the corresponding `JediRules` function describes.
- `JediSearch` (jedi_search.dfy): the Jedi game seen through the searcher's adapter, for a given depth limit. It proves that a positive depth limit makes the search terminate. It also proves that at a consistent state the children the searcher expands one ply down are the states `result` builds.

## Model

| member | source | states |
|---|---|---|
| Search.Minimax | AlphaBetaDL.py:140-189 | the reference: utility if terminal, eval if cut off, else the max (min) over all children with nothing pruned. Its properties are PrunedSound and DecideIsMinimax |
| Search.Pruned | AlphaBetaDL.py:140-189 | what __max_value / __min_value return and how many expansions they count. AlphaBeta.MaxValue and MinValue are proved equal to it, and PrunedSound relates it to Minimax |
| Search.PrunedFrom | AlphaBetaDL.py:155-163 | the loop over the children from index i, with the early return at beta (alpha) |
| Search.Decide | AlphaBetaDL.py:82-138 | what minimax_decision_max / _min return: value, move and node count. The decision methods are proved equal to it, and DecideIsMinimax relates it to Minimax |
| Search.DecideFrom | AlphaBetaDL.py:97-103 | the root loop from index i: every action searched at depth 1, none pruned, the first strictly better value kept |
| Search.ChildValues | AlphaBetaDL.py:97-98 | there is one child value per action of the root |
| Search.ExtremeFrom | AlphaBetaDL.py:97-103 | the root fold's result bounds every later value (above for Max, below for Min), and it is the start value or one of those values |
| Search.FirstFrom | AlphaBetaDL.py:99-102 | the first index holding a value: in range exactly when the value occurs, and no earlier index holds it |
| Search.MinimaxFromBound | AlphaBetaDL.py:155-163 | folding more children never lowers Max's best or raises Min's |
| Search.MinimaxFromShift | AlphaBetaDL.py:155-163 | starting Max's fold from max(best, x) gives max(fold from best, x); Min symmetrically with min |
| Search.PrunedFromBound | AlphaBetaDL.py:155-163 | the pruned loop never returns a worse value than the best it starts from |
| Search.PrunedSound | AlphaBetaDL.py:140-189 | for alpha < beta, a pruned value at or below alpha bounds the true minimax value from above; one at or above beta bounds it from below; one strictly inside the window equals it |
| Search.PrunedFromSound | AlphaBetaDL.py:155-163 | the window property for the loop over the children from index i on |
| Search.PrunedFromSoundMax | AlphaBetaDL.py:155-163 | one loop step of __max_value keeps the window property, including the beta cutoff |
| Search.PrunedFromSoundMin | AlphaBetaDL.py:180-188 | one loop step of __min_value keeps the window property, including the alpha cutoff |
| Search.MinimaxRange | AlphaBetaDL.py:71 | with leaf values strictly inside (-2^20, 2^20), every minimax value lies within [-2^20, 2^20] |
| Search.MinimaxFromRange | AlphaBetaDL.py:155-163 | the same bound for the unpruned fold over the children |
| Search.PrunedRange | AlphaBetaDL.py:140-189 | with bounded leaves, every pruned value lies within [-2^20, 2^20] |
| Search.PrunedFromRange | AlphaBetaDL.py:155-163 | the same bound for the pruned loop |
| Search.DecideFromSound | AlphaBetaDL.py:97-103 | the root loop yields the extreme child value; its move is the first action reaching that value, or the starting move when nothing beats it |
| Search.DecideIsMinimax | AlphaBetaDL.py:82-138 | with bounded leaves, the decision's value is the unpruned minimax of the root. Its move is None exactly when that value is the sentinel; otherwise it is the first action whose child has that value |
| Search.RootIsMinimaxAtDepthZero | AlphaBetaDL.py:82-109 | when the root itself would be expanded, the root loop's value equals Minimax at depth 0 |
| Search.RootFoldIsMinimaxFrom | AlphaBetaDL.py:97-103 | the root fold over child values equals the minimax fold from index i |
| Search.PrunedNodesBounded | AlphaBetaDL.py:140-189 | pruning expands no more nodes than unpruned minimax on the same subtree |
| Search.PrunedFromNodesBounded | AlphaBetaDL.py:155-163 | the same bound for the loop over the children from index i |
| Search.DecideNodesBounded | AlphaBetaDL.py:82-138 | a root decision counts the root once and at most the full minimax count below it |
| Search.DecideFromNodesBounded | AlphaBetaDL.py:97-103 | the root loop's expansions are bounded by the full counts of the remaining subtrees |
| Search.DepthOneCutoffExpandsOnlyRoot | AlphaBetaDL.py:151-152 | children are searched at depth 1, so a game cut off at depth 1 expands only the root |
| Search.DecideFromLeavesOnly | AlphaBetaDL.py:97-98 | when every child is cut off, the root loop counts no expansions |
| Search.TwoLeafGameDecisions | AlphaBetaDL.py:82-138 | on a two-leaf tree worth 10 and -5, Max picks the first move (10) and Min the second (-5), each expanding one node |
| AlphaBetaDL.AlphaBeta.constructor | AlphaBetaDL.py:73-80 | remembers the game and starts the counter at 0 |
| AlphaBetaDL.AlphaBeta.MinimaxDecisionMax | AlphaBetaDL.py:82-109 | returns Decide for Max with the counter equal to its nodes. With no actions the record is (-2^20, None, 1). Nodes are at most 1 plus the full count. With bounded leaves the value is root minimax and the move is the first best child |
| AlphaBetaDL.AlphaBeta.MinimaxDecisionMin | AlphaBetaDL.py:111-138 | the same for Min, with the sentinel 2^20 |
| AlphaBetaDL.AlphaBeta.MaxValue | AlphaBetaDL.py:140-164 | returns Pruned's value and adds Pruned's node count. Utility if terminal and eval if cut off, without counting. Fail-soft with respect to minimax for alpha < beta |
| AlphaBetaDL.AlphaBeta.MinValue | AlphaBetaDL.py:166-189 | the same for Min |
| JediRules.IsValid | JediChessGame.py:305-315 | holds iff 0 <= x < size and 0 <= y < size; ValidIsOnInitialBoard ties it to the board |
| JediRules.ValidIsOnInitialBoard | JediChessGame.py:305-315 | a cell is valid exactly when GameState(size) puts it on the board |
| JediRules.IsTerminal | JediChessGame.py:207-213 | holds iff a win is cached, 40 moves are counted, no Sith is left, or no Rebel and no Jedi is left; TerminalCases gives its consequences |
| JediRules.TerminalCases | JediChessGame.py:207-213 | every one of the four conditions ends the game, and a state still in play has utility 0 and no side wiped out |
| JediRules.CutoffTest | JediChessGame.py:453-466 | holds iff the depth limit is positive and the depth exceeds it; CutoffBoundary gives its consequences |
| JediRules.CutoffBoundary | JediChessGame.py:453-466 | without a positive limit nothing is cut off; with limit d, depth d is searched and d + 1 is cut off; a cut-off depth stays cut off deeper down |
| JediRules.Eval | JediChessGame.py:468-485 | turn bonus +10 or -10, plus 1 per Rebel, 8 per Jedi and -10 per Sith; EvalWeights states the weights |
| JediRules.EvalWeights | JediChessGame.py:468-485 | flipping the turn to Max adds 20; one more Rebel adds 1, one more Jedi 8, and one more Sith takes away 10 |
| JediRules.Initial | JediChessGame.py:106-132 | the state GameState(size) builds; InitialLayout and InitialConsistent describe it |
| JediRules.Cloned | JediChessGame.py:134-152 | the state myclone(size) builds; CloneIsExact shows it equals the original at its own size |
| JediRules.Slide | JediChessGame.py:241-249 | one Jedi's slide along a direction; SlideCells, SlideOverBlanks and SlideIsMaximal describe it |
| JediRules.SithMoves | JediChessGame.py:253-278 | the candidates of every Sith followed by the removal pass; SithCandidatesWellFormed and SithRemovalIsNoOp describe it |
| JediRules.RebelMoves | JediChessGame.py:280-303 | the moves of every Rebel in list order; RebelMovesWellFormed and RebelForwardNeverBlocked describe it |
| JediRules.AllMoves | JediChessGame.py:215-229 | Rebel then Jedi moves for Max and Sith moves for Min; MovesWellFormed and MovesApplicable describe it |
| JediRules.NatToString | JediChessGame.py:121 | the decimal text of a count is never empty |
| JediRules.PieceName | JediChessGame.py:121 | a piece name is its letter followed by at least one digit |
| JediRules.RebelRow | JediChessGame.py:123-125 | the first n Rebels of the bottom row are n pieces |
| JediRules.RebelRowPieces | JediChessGame.py:123-125 | Rebel i is named "Ri" and stands at (size - 1, i) |
| JediRules.JediDirectionsNext | JediChessGame.py:239-250 | helper, one unfolding: trying one more direction appends that direction's slide, and every direction is a unit step |
| JediRules.StayIndices | JediChessGame.py:269-273 | an index is collected exactly when its action leaves the Sith where it stands |
| JediRules.SlideLands | JediChessGame.py:241-249 | every slide move belongs to the mover, starts at the Jedi and lands on the board, on a blank or a Sith |
| JediRules.JediDirectionsLand | JediChessGame.py:239-250 | the same for all eight directions of one Jedi |
| JediRules.JediMovesWellFormed | JediChessGame.py:231-251 | every Jedi move starts from a listed Jedi and ends on the board, on a blank or a Sith |
| JediRules.SithColumnSteps | JediChessGame.py:259-266 | each Sith candidate in one column of offsets is adjacent (or the own cell) and not on a Sith |
| JediRules.SithRingSteps | JediChessGame.py:259-266 | the same for all nine offsets |
| JediRules.SithCandidatesWellFormed | JediChessGame.py:253-266 | every Sith candidate starts from a listed Sith, moves at most one cell and never onto a Sith |
| JediRules.DeleteEachKeeps | JediChessGame.py:274-276 | the removal pass only drops actions; it never invents one |
| JediRules.RebelStepsAdvance | JediChessGame.py:286-301 | every Rebel move goes one row up, and it goes diagonally only onto a Sith |
| JediRules.RebelMovesWellFormed | JediChessGame.py:280-303 | every Rebel move starts from a listed Rebel and obeys the advancing rule |
| JediRules.SlideCells | JediChessGame.py:241-249 | the k-th move of a slide lands k steps along its direction |
| JediRules.SlideOverBlanks | JediChessGame.py:242-249 | every slide move but the last lands on a blank |
| JediRules.SlideIsMaximal | JediChessGame.py:242-248 | a slide not ending on a Sith stops at the edge, or in front of a piece that is not a Sith |
| JediRules.StepShift | JediChessGame.py:249 | helper: one step then k steps is k + 1 steps |
| JediRules.IndexOf | JediChessGame.py:351 | list.index: the first position holding the piece |
| JediRules.ReplaceFirst | JediChessGame.py:356 | replacing by index keeps the length and swaps one occurrence in the multiset |
| JediRules.RemoveFirst | JediChessGame.py:357 | deleting by index removes exactly one occurrence |
| JediRules.JediMoved | JediChessGame.py:343-365 | the Jedi moves: one occurrence replaced, old cell blanked, new cell named, other cells kept. A Sith on the target is removed; otherwise the Sith list is unchanged |
| JediRules.SithMoved | JediChessGame.py:367-396 | onto a blank or a Rebel, the Sith moves (a Rebel is also removed). Onto a listed Jedi, that Jedi becomes a new Sith "S<n>" and the attacker stays. Otherwise the state is unchanged |
| JediRules.RebelMoved | JediChessGame.py:398-438 | onto a blank or a Sith (which is captured), the Rebel moves. On row 0 it is replaced by a new Jedi "J<n>". Otherwise the state is unchanged |
| JediRules.Utility | JediChessGame.py:440-451 | the utility is 61, -61 or 0; it is nonzero exactly for a cached win, and positive exactly for a cached Rebel win |
| JediRules.WinnerCached | JediChessGame.py:511-542 | only the cache changes. A win is recorded exactly when one side has no pieces, and it is credited to the mover (61 for Max, -61 for Min). Terminality is unchanged |
| JediRules.Apply | JediChessGame.py:325-334 | the dispatch keeps size, turn, count and cache. Max's moves never change the total count of Max's pieces; Min's moves never increase it |
| JediRules.Successor | JediChessGame.py:317-341 | result flips the turn, keeps size and move count, caches a win exactly when one side is gone, and never increases the total number of pieces |
| JediRules.PlaceRowKeys | JediChessGame.py:123-125 | placing the bottom row adds no keys beyond its cells |
| JediRules.PlaceRowKeeps | JediChessGame.py:123-125 | placing the bottom row leaves every other cell alone |
| JediRules.PlaceRowNames | JediChessGame.py:124 | placing the bottom row writes each Rebel's name on its own cell |
| JediRules.SithOnBlankBoard | JediChessGame.py:115-121 | before the Rebels come, the board is the full grid of blanks with "S0" at the top middle |
| JediRules.InitialKeys | JediChessGame.py:106-132 | the initial board covers exactly the size-by-size grid |
| JediRules.InitialBottomCell | JediChessGame.py:123-125 | cell (size - 1, y) holds "Ry" |
| JediRules.InitialUpperCell | JediChessGame.py:115-121 | above the bottom row, cells are blank except for "S0" at (0, size // 2) |
| JediRules.InitialValues | JediChessGame.py:106-132 | the full initial board, cell by cell |
| JediRules.InitialLayout | JediChessGame.py:106-132 | the initial state's board has exactly the on-board cells, with Rebels on the bottom row, "S0" at the top middle and blanks elsewhere |
| JediRules.InitialConsistent | JediChessGame.py:106-132 | from size 2 on, the initial lists and board agree; eval of the initial state is size (10 + size - 10) and it is not terminal |
| JediRules.InitialPiecesOnBoard | JediChessGame.py:106-132 | every listed initial piece stands on a cell holding its name |
| JediRules.InitialBoardListed | JediChessGame.py:106-132 | every named cell of the initial board is listed |
| JediRules.CloneIsExact | JediChessGame.py:134-152 | cloning a state whose board covers the grid, at its own size, yields the same state |
| JediRules.MovesWellFormed | JediChessGame.py:215-229 | every move belongs to the mover and lands on the board. Max's moves start from a listed Rebel or Jedi. Min's start from a listed Sith, move at most one cell and never onto a Sith |
| JediRules.SithRemovalIsNoOp | JediChessGame.py:268-276 | on a consistent state no candidate stays put, so the removal pass changes nothing |
| JediRules.RebelStepsIncluded | JediChessGame.py:285-303 | each Rebel's moves are among the moves of all Rebels |
| JediRules.RebelForwardNeverBlocked | JediChessGame.py:298-301 | the forward guard always holds: every Rebel with a cell ahead is offered the step, whatever stands there |
| JediRules.MovesApplicable | JediChessGame.py:317-341 | on a consistent state every generated move can be applied by result without failing |
| JediRules.StayIndicesEmpty | JediChessGame.py:269-273 | when no action stays put, no index is collected |
| JediChessGame.GameState.constructor | JediChessGame.py:106-132 | the new state is the initial state: blank grid, "S0" at the top middle, Rebels "R0".."R(size-1)" on the bottom row, Max to move, count 0, nothing cached |
| JediChessGame.GameState.MyClone | JediChessGame.py:134-152 | a fresh state: a new GameState(size) with every field and every board entry of this one copied over |
| JediChessGame.BlankCells | JediChessGame.py:115-117 | the nested loops produce the blank size-by-size grid |
| JediChessGame.PlaceRebels | JediChessGame.py:123-125 | the Rebel loop writes the bottom row and builds its list |
| JediChessGame.CopyEntries | JediChessGame.py:142-143 | copying every entry of the source over the destination yields their union, with the source winning |
| JediChessGame.BlankBoardFrom | JediChessGame.py:115-117 | a map with exactly the grid's keys, all blank, is the blank board |
| JediChessGame.PlaceSnoc | JediChessGame.py:124-125 | placing one more Rebel writes its name over its cell |
| JediChessGame.UnionPointwise | JediChessGame.py:142-143 | a map agreeing with the source on its keys and with the destination elsewhere is their union |
| JediChessGame.Game.constructor | JediChessGame.py:181-185 | remembers the size and depth limit |
| JediChessGame.Game.InitialState | JediChessGame.py:187-191 | a fresh state in the initial position |
| JediChessGame.Game.IsMinsTurn | JediChessGame.py:193-198 | answers whether Min moves; bumps the move count and changes nothing else |
| JediChessGame.Game.IsMaxsTurn | JediChessGame.py:200-205 | answers whether Max moves; bumps the move count and changes nothing else |
| JediChessGame.Game.Actions | JediChessGame.py:215-229 | Rebel then Jedi moves for Max and Sith moves for Min; every move belongs to the mover and lands on the board |
| JediChessGame.Game.JediActions | JediChessGame.py:231-251 | the slides of every Jedi in list order |
| JediChessGame.Game.JediPieceActions | JediChessGame.py:239-250 | one Jedi's slides in the eight directions, in order |
| JediChessGame.Game.SlideActions | JediChessGame.py:241-249 | the slide along one direction |
| JediChessGame.Game.SithActions | JediChessGame.py:253-278 | the nine-offset candidates of every Sith, followed by the removal pass |
| JediChessGame.Game.SithRingActions | JediChessGame.py:259-266 | one Sith's candidates, offset column by offset column |
| JediChessGame.Game.RemoveStaying | JediChessGame.py:268-276 | collects the indices of staying moves, then deletes them one by one |
| JediChessGame.Game.RebelActions | JediChessGame.py:280-303 | the moves of every Rebel in list order |
| JediChessGame.Game.RebelPieceActions | JediChessGame.py:286-301 | one Rebel's moves: capture up-right, capture up-left, then the forward step |
| JediChessGame.Game.Result | JediChessGame.py:317-341 | a fresh state equal to the successor of this one; the original is untouched |
| JediChessGame.Game.ApplyMove | JediChessGame.py:325-334 | dispatches to the Rebel, Jedi or Sith update |
| JediChessGame.Game.UpdateJedi | JediChessGame.py:343-365 | the state becomes JediMoved of its old value |
| JediChessGame.Game.UpdateSith | JediChessGame.py:367-396 | the state becomes SithMoved of its old value |
| JediChessGame.Game.UpdateRebels | JediChessGame.py:398-438 | the state becomes RebelMoved of its old value |
| JediChessGame.Game.CacheWinner | JediChessGame.py:511-542 | the state becomes WinnerCached of its old value |
| JediSearch.JediGame | JediChessGame.py:207-229 | the Game object as the searcher's adapter: is_terminal, utility, cutoff_test with the depth limit, eval, actions and result |
| JediSearch.DepthLimitedSearchTerminates | JediChessGame.py:453-466 | with a positive depth limit, the search over the Jedi game terminates |
| JediSearch.UtilityWithinSentinels | JediChessGame.py:440-451 | helper, an arithmetic fact: terminal values lie strictly inside (-2^20, 2^20) and are 0 exactly when no win is cached |
| JediSearch.ChildIsSuccessor | JediChessGame.py:317-341 | on a consistent state the searcher expands exactly the generated moves, and each child is the state result builds |
| JediSearch.DepthOneScoresGrandchildren | JediChessGame.py:453-466 | helper, an arithmetic fact: with depth limit 1, children at depth 1 are searched, and everything deeper is cut off and scored by eval |

## Left out

- Display, `__str__`, the state string kept in `GameState.string`, `transposition_string` and `congratulate` only produce text for the console or a transposition table. They are not modelled.
- `SearchTerminationRecord`'s timing field and `time.perf_counter` are clock reads and are not modelled. `SearchRecord` keeps the value, the move and the node count.
- RunGame.py is not part of this model.
- JediSearch.Moves: on a state whose board does not cover the grid, Python's `actions` would raise KeyError; the adapter returns no moves instead, so the searcher scores that node with the sentinel -2^20 or 2^20.
- JediSearch.Next: on a move that `result` cannot apply, Python would raise an exception; the adapter returns the state itself instead, so that child is its own parent. `ChildIsSuccessor` shows neither fallback is taken one ply below a consistent state; deeper plies are not covered because preservation of `Consistent` is not proved.
- Python raises an exception when the code looks up a missing key, reads `[0]` of an empty string, or calls `list.index` on a missing piece. Preconditions replace these exceptions (`Legal`, `JediMovePre`, `SithMovePre`, `RebelMovePre`, `ApplyPre`, `ResultPre`). `MovesApplicable` shows that every generated move on a consistent state meets them.
- The removal pass of `sithActions` deletes by ascending index, so earlier deletions shift later entries. The model keeps that order. `DeleteAt` skips an index past the end of the shortened list, where Python would raise IndexError. `SithRemovalIsNoOp` shows the pass deletes nothing on a consistent state.
- Rebel forward step: the guard `[0] != "S" or [0] != "J"` is always true. It is modelled as written, and `RebelForwardNeverBlocked` states the consequence.
- Loops of `__init__`, `jediActions`, `sithActions` and `rebelActions` are split into helper methods (`BlankCells`, `PlaceRebels`, `JediPieceActions`, `SlideActions`, `SithRingActions`, `RemoveStaying`, `RebelPieceActions`). `myclone`'s copy loop is the helper `CopyEntries`, which works on a local map before the result is stored in the new state. The statements and their order are those of the source.
- Search.PrunedSound: stated only for alpha < beta. The window theorem says nothing about an empty window.
- Search.DecideIsMinimax: needs every utility and eval value strictly inside (-2^20, 2^20). The Jedi `eval` is not bounded in the model because piece counts are unbounded, so this lemma is not applied to the Jedi game.
- JediSearch.DepthLimitedSearchTerminates: covers only a positive depth limit. With depth limit 0 (the default) only the 40-move counter could end a game, and the move count is not bumped by result, so termination is not proved there.
- JediRules.InitialConsistent: holds from size 2 on. With size 1 the Sith and the only Rebel share cell (0, 0), and the board shows only the Rebel.
- That `result` preserves `Consistent` is not proved. `Consistent` allows the same piece tuple to be listed twice. `ReplaceFirst` and `RemoveFirst` then update only the first copy, and the stale copy points at a cell that has just been blanked.
- Integers are unbounded, as are Python's; `ifny` is the constant 2^20.
