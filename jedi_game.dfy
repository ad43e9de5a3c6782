/**
 * The GameState and Game classes of JediChessGame.py. A GameState is updated in
 * place; `Snapshot` reads it as a JediRules.State value, and every method is proved
 * to do to it what the corresponding function of module JediRules says.
 */
module JediChessGame {
  import opened Wrappers
  import opened JediRules

  class GameState {
    var board: map<Cell, string>
    var size: int
    var rebels: seq<Piece>
    var sith: seq<Piece>
    var jedi: seq<Piece>
    var maxsTurn: bool
    var moveCount: int
    var cachedWin: bool
    var cachedWinner: Option<bool>

    function Snapshot(): State
      reads this
    {
      State(board, size, rebels, sith, jedi, maxsTurn, moveCount, cachedWin, cachedWinner)
    }

    /** A new game: blank board, one Sith at the top middle, a row of Rebels at the bottom. */
    constructor (size: int)
      ensures Snapshot() == Initial(size)
    {
      var b := BlankCells(size);
      var middle := size / 2;
      var sithList: seq<Piece> := [];
      b := b[(0, middle) := PieceName('S', |sithList|)];
      sithList := sithList + [(PieceName('S', |sithList|), 0, middle)];
      assert b == SithBoard(size);
      var rebelList;
      b, rebelList := PlaceRebels(size, b);
      this.size := size;
      board := b;
      rebels := rebelList;
      sith := sithList;
      jedi := [];
      maxsTurn := true;
      moveCount := 0;
      cachedWinner := None;
      cachedWin := false;
    }

    /** myclone: a new GameState(size) with every field, and every board entry, copied over. */
    method MyClone(size: int) returns (c: GameState)
      ensures fresh(c) && c.Snapshot() == Cloned(Snapshot(), size)
    {
      c := new GameState(size);
      c.size := this.size;
      c.rebels := rebels;
      c.sith := sith;
      c.jedi := jedi;
      c.board := CopyEntries(c.board, board);
      c.cachedWinner := cachedWinner;
      c.moveCount := moveCount;
      c.maxsTurn := maxsTurn;
      c.cachedWin := cachedWin;
    }
  }

  /** The constructor's nested loops: a blank entry for every cell of the size-by-size grid. */
  method BlankCells(size: int) returns (b: map<Cell, string>)
    ensures b == BlankBoard(size)
  {
    var rows := if size > 0 then size else 0;
    b := map[];
    var r := 0;
    while r < size
      invariant 0 <= r <= rows
      invariant forall x, y :: (x, y) in b <==> 0 <= x < r && 0 <= y < size
      invariant forall k :: k in b ==> b[k] == Blank
    {
      var c := 0;
      while c < size
        invariant 0 <= c <= rows
        invariant forall x, y :: (x, y) in b <==> (0 <= x < r && 0 <= y < size) || (x == r && 0 <= y < c)
        invariant forall k :: k in b ==> b[k] == Blank
      {
        b := b[(r, c) := Blank];
        c := c + 1;
      }
      r := r + 1;
    }
    BlankBoardFrom(size, r, b);
  }

  /** The constructor's Rebel loop: "Ri" written on cell (size - 1, i) and appended to the list, for each column i. */
  method PlaceRebels(size: int, base: map<Cell, string>) returns (b: map<Cell, string>, rebelList: seq<Piece>)
    ensures rebelList == RebelRow(size, if size > 0 then size else 0)
    ensures b == Place(base, rebelList)
  {
    b := base;
    rebelList := [];
    var i := 0;
    while i < size
      invariant 0 <= i <= if size > 0 then size else 0
      invariant rebelList == RebelRow(size, i)
      invariant b == Place(base, rebelList)
    {
      PlaceSnoc(base, rebelList, (PieceName('R', |rebelList|), size - 1, i));
      b := b[(size - 1, i) := PieceName('R', |rebelList|)];
      rebelList := rebelList + [(PieceName('R', |rebelList|), size - 1, i)];
      i := i + 1;
    }
  }

  /** The entry-by-entry copy of myclone: every entry of `src` written over `dst`. */
  method CopyEntries(dst: map<Cell, string>, src: map<Cell, string>) returns (copy: map<Cell, string>)
    ensures copy == dst + src
  {
    copy := dst;
    var keys := src.Keys;
    ghost var done: set<Cell> := {};
    while keys != {}
      invariant keys + done == src.Keys && keys !! done
      invariant forall k :: k in copy <==> k in dst || k in done
      invariant forall k :: k in copy ==> copy[k] == if k in done then src[k] else dst[k]
      decreases keys
    {
      var rc :| rc in keys;
      copy := copy[rc := src[rc]];
      keys := keys - {rc};
      done := done + {rc};
    }
    assert done == src.Keys;
    UnionPointwise(dst, src, copy);
  }

  /** The cells filled by the constructor's nested loops make up BlankBoard(size). */
  lemma BlankBoardFrom(size: int, r: int, b: map<Cell, string>)
    requires r == if size > 0 then size else 0
    requires forall x, y :: (x, y) in b <==> 0 <= x < r && 0 <= y < size
    requires forall k :: k in b ==> b[k] == Blank
    ensures b == BlankBoard(size)
  {
    forall k | k in BlankBoard(size)
      ensures k in b
    {
      assert k == (k.0, k.1);
    }
    forall k | k in b
      ensures k in BlankBoard(size)
    {
      var (x, y) := k;
      assert (x, y) in b;
      assert 0 <= x < r && 0 <= y < size;
    }
    assert b.Keys == BlankBoard(size).Keys;
  }

  /** Placing one more piece writes its name over its cell. */
  lemma PlaceSnoc(b: map<Cell, string>, ps: seq<Piece>, p: Piece)
    ensures Place(b, ps + [p]) == Place(b, ps)[(p.1, p.2) := p.0]
  {
    assert (ps + [p])[..|ps|] == ps;
  }

  /** A map that agrees with `b` on its keys and with `a` elsewhere is `a + b`. */
  lemma UnionPointwise(a: map<Cell, string>, b: map<Cell, string>, c: map<Cell, string>)
    requires forall k :: k in c <==> k in a || k in b
    requires forall k :: k in c ==> c[k] == if k in b then b[k] else a[k]
    ensures c == a + b
  {
  }

  class Game {
    const gameSize: int
    const depthLimit: int

    constructor (size: int, depth: int)
      ensures gameSize == size && depthLimit == depth
    {
      gameSize := size;
      depthLimit := depth;
    }

    method InitialState() returns (s: GameState)
      ensures fresh(s) && s.Snapshot() == Initial(gameSize)
    {
      s := new GameState(gameSize);
    }

    /** Whether Min is to move; every query also counts one move. */
    method IsMinsTurn(state: GameState) returns (mins: bool)
      modifies state
      ensures mins == !state.maxsTurn
      ensures state.Snapshot() == old(state.Snapshot()).(moveCount := old(state.moveCount) + 1)
    {
      state.moveCount := state.moveCount + 1;
      mins := !state.maxsTurn;
    }

    /** Whether Max is to move; every query also counts one move. */
    method IsMaxsTurn(state: GameState) returns (maxs: bool)
      modifies state
      ensures maxs == state.maxsTurn
      ensures state.Snapshot() == old(state.Snapshot()).(moveCount := old(state.moveCount) + 1)
    {
      state.moveCount := state.moveCount + 1;
      maxs := state.maxsTurn;
    }

    /** The moves of the player to move: Rebels then Jedi for Max, the Sith for Min. */
    method Actions(state: GameState) returns (acts: seq<Action>)
      requires Legal(state.Snapshot())
      ensures acts == AllMoves(state.Snapshot())
      ensures forall a :: a in acts ==> a.who == state.maxsTurn && IsValid(state.Snapshot(), a.x, a.y)
    {
      if state.maxsTurn {
        var rebelActs := RebelActions(state);
        var jediActs := JediActions(state);
        acts := rebelActs + jediActs;
      } else {
        acts := SithActions(state);
      }
      MovesWellFormed(state.Snapshot());
    }

    /** Each Jedi slides in each of the eight directions over blanks, ending on a Sith or before a piece. */
    method JediActions(state: GameState) returns (acts: seq<Action>)
      requires Legal(state.Snapshot())
      ensures acts == JediMoves(state.Snapshot())
    {
      var st := state.Snapshot();
      acts := [];
      var k := 0;
      while k < |st.jedi|
        invariant 0 <= k <= |st.jedi|
        invariant acts == JediMovesUpTo(st, k)
      {
        var pieceActs := JediPieceActions(st, st.jedi[k]);
        acts := acts + pieceActs;
        assert acts == JediMovesUpTo(st, k + 1);
        k := k + 1;
      }
      assert acts == JediMoves(st);
    }

    /** The moves of one Jedi: a slide in each of the eight directions, in order. */
    method JediPieceActions(st: State, p: Piece) returns (acts: seq<Action>)
      requires Legal(st)
      ensures acts == JediDirections(st, p, |Directions|)
    {
      acts := [];
      var moves := Directions;
      var m := 0;
      while m < |moves|
        invariant 0 <= m <= |moves|
        invariant acts == JediDirections(st, p, m)
      {
        var move := moves[m];
        JediDirectionsNext(st, p, m);
        var slide := SlideActions(st, p, move.0, move.1);
        acts := acts + slide;
        m := m + 1;
      }
    }

    /** The moves of the Jedi `p` along (dx, dy): blanks until the first piece, which is kept if a Sith. */
    method SlideActions(st: State, p: Piece, dx: int, dy: int) returns (acts: seq<Action>)
      requires Legal(st) && UnitStep(dx, dy)
      ensures acts == Slide(st, p, dx, dy, p.1 + dx, p.2 + dy)
    {
      acts := [];
      var x, y := p.1 + dx, p.2 + dy;
      while IsValid(st, x, y)
        invariant acts + Slide(st, p, dx, dy, x, y) == Slide(st, p, dx, dy, p.1 + dx, p.2 + dy)
        decreases Span(st.size, x, y, dx, dy)
      {
        if st.board[(x, y)] != Blank {
          if st.board[(x, y)][0] == 'S' {
            acts := acts + [Action(st.maxsTurn, p.0, x, y, p.1, p.2)];
          }
          return;
        }
        acts := acts + [Action(st.maxsTurn, p.0, x, y, p.1, p.2)];
        x, y := x + dx, y + dy;
      }
    }

    /** Each Sith may step to any of the nine cells around it that is on the board and not a Sith. */
    method SithActions(state: GameState) returns (acts: seq<Action>)
      requires Legal(state.Snapshot())
      ensures acts == SithMoves(state.Snapshot())
    {
      var st := state.Snapshot();
      acts := [];
      var k := 0;
      while k < |st.sith|
        invariant 0 <= k <= |st.sith|
        invariant acts == SithCandidatesUpTo(st, k)
      {
        var ring := SithRingActions(st, st.sith[k]);
        acts := acts + ring;
        assert acts == SithCandidatesUpTo(st, k + 1);
        k := k + 1;
      }
      assert acts == SithCandidates(st);
      acts := RemoveStaying(acts);
    }

    /** The candidate moves of the Sith `p`: its nine surrounding offsets, column by column. */
    method SithRingActions(st: State, p: Piece) returns (acts: seq<Action>)
      requires Legal(st)
      ensures acts == SithRing(st, p, 3)
    {
      acts := [];
      var dx := -1;
      while dx < 2
        invariant -1 <= dx <= 2
        invariant acts == SithRing(st, p, dx + 1)
      {
        var dy := -1;
        while dy < 2
          invariant -1 <= dy <= 2
          invariant acts == SithRing(st, p, dx + 1) + SithColumn(st, p, dx, dy + 1)
        {
          var xpos, ypos := p.1 + dx, p.2 + dy;
          if IsValid(st, xpos, ypos) {
            if st.board[(xpos, ypos)][0] != 'S' {
              acts := acts + [Action(st.maxsTurn, p.0, xpos, ypos, p.1, p.2)];
            }
          }
          dy := dy + 1;
        }
        dx := dx + 1;
      }
    }

    /** The removal pass of sithActions: collect the indices of staying moves, then delete each in turn. */
    method RemoveStaying(cands: seq<Action>) returns (acts: seq<Action>)
      ensures acts == RemovePass(cands)
    {
      acts := cands;
      var toRemove: seq<nat> := [];
      if |acts| > 0 {
        var i := 0;
        while i < |acts|
          invariant 0 <= i <= |acts|
          invariant toRemove == StayIndices(acts, i)
        {
          if acts[i].x == acts[i].oldX && acts[i].y == acts[i].oldY {
            toRemove := toRemove + [i];
          }
          i := i + 1;
        }
      }
      if |toRemove| > 0 {
        var j := 0;
        while j < |toRemove|
          invariant 0 <= j <= |toRemove|
          invariant acts == DeleteEach(cands, toRemove, j)
        {
          acts := DeleteAt(acts, toRemove[j]);
          j := j + 1;
        }
      }
    }

    /** Each Rebel may capture a Sith diagonally ahead and step straight ahead. */
    method RebelActions(state: GameState) returns (acts: seq<Action>)
      requires Legal(state.Snapshot())
      ensures acts == RebelMoves(state.Snapshot())
    {
      var st := state.Snapshot();
      acts := [];
      var k := 0;
      while k < |st.rebels|
        invariant 0 <= k <= |st.rebels|
        invariant acts == RebelMovesUpTo(st, k)
      {
        var pieceActs := RebelPieceActions(st, st.rebels[k]);
        acts := acts + pieceActs;
        assert acts == RebelMovesUpTo(st, k + 1);
        k := k + 1;
      }
      assert acts == RebelMoves(st);
    }

    /** The moves of one Rebel: capture up-right, capture up-left, then the forward step. */
    method RebelPieceActions(st: State, p: Piece) returns (acts: seq<Action>)
      requires Legal(st)
      ensures acts == RebelSteps(st, p)
    {
      acts := [];
      var (name, r, c) := p;
      if IsValid(st, r - 1, c + 1) {
        if st.board[(r - 1, c + 1)][0] == 'S' {
          acts := acts + [Action(st.maxsTurn, name, r - 1, c + 1, r, c)];
        }
      }
      assert acts == RebelCapture(st, p, 1);
      if IsValid(st, r - 1, c - 1) {
        if st.board[(r - 1, c - 1)][0] == 'S' {
          acts := acts + [Action(st.maxsTurn, name, r - 1, c - 1, r, c)];
        }
      }
      assert acts == RebelCapture(st, p, 1) + RebelCapture(st, p, -1);
      if IsValid(st, r - 1, c) {
        if st.board[(r - 1, c)][0] != 'S' || st.board[(r - 1, c)][0] != 'J' {
          acts := acts + [Action(st.maxsTurn, name, r - 1, c, r, c)];
        }
      }
    }

    /** result: a fresh clone with the move applied, the turn flipped and a win cached. */
    method Result(state: GameState, action: Action) returns (newState: GameState)
      requires ResultPre(state.Snapshot(), action)
      ensures fresh(newState)
      ensures newState.Snapshot() == Successor(state.Snapshot(), action)
    {
      ghost var st := state.Snapshot();
      var turn := state.maxsTurn;
      newState := state.MyClone(state.size);
      assert newState.Snapshot() == Cloned(st, st.size);
      ApplyMove(newState, action);
      ghost var moved := Apply(Cloned(st, st.size), action);
      assert newState.Snapshot() == moved;
      newState.maxsTurn := !turn;
      assert newState.Snapshot() == moved.(maxsTurn := !st.maxsTurn);
      CacheWinner(action.who, action.x, action.y, newState);
    }

    /** The dispatch of result: a Rebel move, another move of Max (a Jedi), or a move of Min (a Sith). */
    method ApplyMove(state: GameState, action: Action)
      requires ApplyPre(state.Snapshot(), action)
      modifies state
      ensures state.Snapshot() == Apply(old(state.Snapshot()), action)
    {
      if action.who {
        if action.piece[0] == 'R' {
          UpdateRebels(state, action);
        } else {
          UpdateJedi(state, action);
        }
      } else {
        UpdateSith(state, action);
      }
    }

    method UpdateJedi(state: GameState, action: Action)
      requires JediMovePre(state.Snapshot(), action)
      modifies state
      ensures state.Snapshot() == JediMoved(old(state.Snapshot()), action)
    {
      ghost var st := state.Snapshot();
      var piece, x, y, oldX, oldY := action.piece, action.x, action.y, action.oldX, action.oldY;
      var target := state.board[(x, y)];
      if target[0] == 'S' {
        var jediIndex := IndexOf(state.jedi, (piece, oldX, oldY));
        var sithIndex := IndexOf(state.sith, (target, x, y));
        state.board := state.board[(x, y) := piece];
        state.jedi := state.jedi[jediIndex := (piece, x, y)];
        state.board := state.board[(oldX, oldY) := Blank];
        state.sith := state.sith[..sithIndex] + state.sith[sithIndex + 1..];
      } else {
        var jediIndex := IndexOf(state.jedi, (piece, oldX, oldY));
        state.board := state.board[(x, y) := piece];
        state.jedi := state.jedi[jediIndex := (piece, x, y)];
        state.board := state.board[(oldX, oldY) := Blank];
      }
      assert state.Snapshot() == JediMoved(st, action);
    }

    method UpdateSith(state: GameState, action: Action)
      requires SithMovePre(state.Snapshot(), action)
      modifies state
      ensures state.Snapshot() == SithMoved(old(state.Snapshot()), action)
    {
      ghost var st := state.Snapshot();
      var piece, x, y, oldX, oldY := action.piece, action.x, action.y, action.oldX, action.oldY;
      var target := state.board[(x, y)];
      if target == Blank {
        var sithIndex := IndexOf(state.sith, (piece, oldX, oldY));
        state.board := state.board[(x, y) := piece];
        state.board := state.board[(oldX, oldY) := Blank];
        state.sith := state.sith[sithIndex := (piece, x, y)];
      } else if target[0] == 'J' {
        if (target, x, y) in state.jedi {
          var jediIndex := IndexOf(state.jedi, (target, x, y));
          state.board := state.board[(x, y) := PieceName('S', |state.sith|)];
          state.sith := state.sith + [(PieceName('S', |state.sith|), x, y)];
          state.jedi := state.jedi[..jediIndex] + state.jedi[jediIndex + 1..];
        }
      } else if target[0] == 'R' {
        var rebelIndex := IndexOf(state.rebels, (target, x, y));
        var sithIndex := IndexOf(state.sith, (piece, oldX, oldY));
        state.board := state.board[(x, y) := piece];
        state.board := state.board[(oldX, oldY) := Blank];
        state.sith := state.sith[sithIndex := (piece, x, y)];
        state.rebels := state.rebels[..rebelIndex] + state.rebels[rebelIndex + 1..];
      }
      assert state.Snapshot() == SithMoved(st, action);
    }

    method UpdateRebels(state: GameState, action: Action)
      requires RebelMovePre(state.Snapshot(), action)
      modifies state
      ensures state.Snapshot() == RebelMoved(old(state.Snapshot()), action)
    {
      ghost var st := state.Snapshot();
      var piece, x, y, oldX, oldY := action.piece, action.x, action.y, action.oldX, action.oldY;
      var target := state.board[(x, y)];
      if target == Blank {
        if x == 0 {
          var rebelIndex := IndexOf(state.rebels, (piece, oldX, oldY));
          state.board := state.board[(x, y) := PieceName('J', |state.jedi|)];
          state.jedi := state.jedi + [(PieceName('J', |state.jedi|), x, y)];
          state.board := state.board[(oldX, oldY) := Blank];
          state.rebels := state.rebels[..rebelIndex] + state.rebels[rebelIndex + 1..];
        } else {
          var rebelIndex := IndexOf(state.rebels, (piece, oldX, oldY));
          state.board := state.board[(x, y) := piece];
          state.rebels := state.rebels[rebelIndex := (piece, x, y)];
          state.board := state.board[(oldX, oldY) := Blank];
        }
      } else if target[0] == 'S' {
        if x == 0 {
          var rebelIndex := IndexOf(state.rebels, (piece, oldX, oldY));
          var sithIndex := IndexOf(state.sith, (target, x, y));
          state.board := state.board[(x, y) := PieceName('J', |state.jedi|)];
          state.jedi := state.jedi + [(PieceName('J', |state.jedi|), x, y)];
          state.board := state.board[(oldX, oldY) := Blank];
          state.rebels := state.rebels[..rebelIndex] + state.rebels[rebelIndex + 1..];
          state.sith := state.sith[..sithIndex] + state.sith[sithIndex + 1..];
        } else {
          var rebelIndex := IndexOf(state.rebels, (piece, oldX, oldY));
          var sithIndex := IndexOf(state.sith, (target, x, y));
          state.sith := state.sith[..sithIndex] + state.sith[sithIndex + 1..];
          state.board := state.board[(x, y) := piece];
          state.board := state.board[(oldX, oldY) := Blank];
          state.rebels := state.rebels[rebelIndex := (piece, x, y)];
        }
      }
      assert state.Snapshot() == RebelMoved(st, action);
    }

    /** _cache_winner: credits `who` with the win once one side has no pieces left. */
    method CacheWinner(who: bool, x: int, y: int, state: GameState)
      modifies state
      ensures state.Snapshot() == WinnerCached(old(state.Snapshot()), who)
    {
      var won;
      if |state.jedi| + |state.rebels| == 0 {
        won := true;
      } else if |state.sith| == 0 {
        won := true;
      } else {
        won := false;
      }
      if won {
        state.cachedWin := true;
        state.cachedWinner := Some(who);
      }
    }
  }
}
