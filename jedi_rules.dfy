/**
 * The rules of Jedi chess (JediChessGame.py) as functions on a value snapshot of
 * the game state. The imperative classes in module JediChessGame are proved to
 * compute exactly these functions.
 *
 * The board is a dictionary from (row, column) to a cell string: two blanks for an
 * empty cell, otherwise a piece name such as "S0", "R3" or "J1" whose first letter
 * says whether it is a Sith, a Rebel or a Jedi. Max plays the Rebels and Jedi,
 * Min plays the Sith.
 */
module JediRules {
  import opened Wrappers

  type Cell = (int, int)

  /** A piece: its name, row and column. */
  type Piece = (string, int, int)

  /** (whose turn, piece name, new row, new column, old row, old column). */
  datatype Action = Action(who: bool, piece: string, x: int, y: int, oldX: int, oldY: int)

  datatype State = State(
    board: map<Cell, string>,
    size: int,
    rebels: seq<Piece>,
    sith: seq<Piece>,
    jedi: seq<Piece>,
    maxsTurn: bool,
    moveCount: int,
    cachedWin: bool,
    cachedWinner: Option<bool>)

  const Blank: string := "  "

  // ---------------------------------------------------------------------------
  // Piece names.
  // ---------------------------------------------------------------------------

  function DigitChar(d: nat): char
    requires d < 10
  {
    "0123456789"[d]
  }

  /** Python's str() of a non-negative integer. */
  function NatToString(n: nat): (s: string)
    ensures |s| >= 1
  {
    if n < 10 then [DigitChar(n)] else NatToString(n / 10) + [DigitChar(n % 10)]
  }

  /** A piece letter followed by a count, as in `"S" + str(len(state.sith))`. */
  function PieceName(kind: char, n: nat): (name: string)
    ensures |name| >= 2 && name[0] == kind
  {
    [kind] + NatToString(n)
  }

  // ---------------------------------------------------------------------------
  // Board geometry and well-formed states.
  // ---------------------------------------------------------------------------

  predicate IsValid(st: State, x: int, y: int) {
    0 <= x < st.size && 0 <= y < st.size
  }

  /** Every on-board cell is in the dictionary and holds a non-empty string. */
  predicate Legal(st: State) {
    forall x, y | 0 <= x < st.size && 0 <= y < st.size :: (x, y) in st.board && |st.board[(x, y)]| > 0
  }

  /** The piece stands on a cell of the board that holds its name, which starts with `kind`. */
  predicate OnOwnSquare(st: State, p: Piece, kind: char) {
    && IsValid(st, p.1, p.2) && (p.1, p.2) in st.board && st.board[(p.1, p.2)] == p.0
    && |p.0| > 0 && p.0[0] == kind
  }

  /** The piece lists agree with the board in both directions. */
  ghost predicate Consistent(st: State) {
    && Legal(st)
    && (forall p :: p in st.rebels ==> OnOwnSquare(st, p, 'R'))
    && (forall p :: p in st.sith ==> OnOwnSquare(st, p, 'S'))
    && (forall p :: p in st.jedi ==> OnOwnSquare(st, p, 'J'))
    && (forall x, y | IsValid(st, x, y) && (x, y) in st.board && |st.board[(x, y)]| > 0 ::
          && (st.board[(x, y)][0] == 'R' ==> (st.board[(x, y)], x, y) in st.rebels)
          && (st.board[(x, y)][0] == 'S' ==> (st.board[(x, y)], x, y) in st.sith)
          && (st.board[(x, y)][0] == 'J' ==> (st.board[(x, y)], x, y) in st.jedi))
  }

  // ---------------------------------------------------------------------------
  // The initial state and the clone.
  // ---------------------------------------------------------------------------

  function BlankBoard(size: int): map<Cell, string> {
    map x: int, y: int | 0 <= x < size && 0 <= y < size :: (x, y) := Blank
  }

  /** Writes each piece's name on its cell, in list order (later pieces win). */
  function Place(b: map<Cell, string>, ps: seq<Piece>): map<Cell, string>
    decreases |ps|
  {
    if ps == [] then b
    else
      var p := ps[|ps| - 1];
      Place(b, ps[..|ps| - 1])[(p.1, p.2) := p.0]
  }

  /** The first `n` Rebels of the bottom row of a board of the given size. */
  function RebelRow(size: int, n: nat): (row: seq<Piece>)
    ensures |row| == n
  {
    if n == 0 then [] else RebelRow(size, n - 1) + [(PieceName('R', n - 1), size - 1, n - 1)]
  }

  /** GameState(size): blanks, one Sith "S0" at the top middle, Rebels across the bottom row. */
  function Initial(size: int): State {
    var rebels := RebelRow(size, if size > 0 then size else 0);
    State(Place(SithBoard(size), rebels), size, rebels, [(PieceName('S', 0), 0, size / 2)], [], true, 0, false, None)
  }

  /** The blank board with the Sith "S0" in the middle of the top row. */
  function SithBoard(size: int): map<Cell, string> {
    BlankBoard(size)[(0, size / 2) := PieceName('S', 0)]
  }

  /** myclone(size): a fresh GameState(size) whose fields are then overwritten from `st`. */
  function Cloned(st: State, size: int): State {
    st.(board := Initial(size).board + st.board)
  }

  // ---------------------------------------------------------------------------
  // Leaf tests and values.
  // ---------------------------------------------------------------------------

  predicate IsTerminal(st: State) {
    st.cachedWin || st.moveCount == 40 || |st.sith| == 0 || |st.jedi| + |st.rebels| == 0
  }

  function CutoffTest(depthLimit: int, depth: int): bool {
    depthLimit > 0 && depth > depthLimit
  }

  function Eval(st: State): int {
    var turnBonus := if st.maxsTurn then 10 else -10;
    turnBonus + |st.rebels| * 1 + |st.jedi| * 8 - |st.sith| * 10
  }

  // ---------------------------------------------------------------------------
  // Move generation.
  // ---------------------------------------------------------------------------

  /** The eight Jedi directions, in the order the generator tries them. */
  const Directions: seq<(int, int)> := [(1, 0), (0, 1), (-1, 0), (0, -1), (1, 1), (-1, 1), (1, -1), (-1, -1)]

  predicate UnitStep(dx: int, dy: int) {
    -1 <= dx <= 1 && -1 <= dy <= 1 && (dx != 0 || dy != 0)
  }

  /** The coordinate `k` steps of `d` away from `x`. */
  function Step(x: int, d: int, k: nat): int {
    if d == 1 then x + k else if d == -1 then x - k else x
  }

  /** How many more cells a slide from (x, y) along (dx, dy) can still visit on the board. */
  function Span(size: int, x: int, y: int, dx: int, dy: int): nat {
    var n :=
      if dx == 1 then size - x
      else if dx == -1 then x + 1
      else if dy == 1 then size - y
      else y + 1;
    if n > 0 then n else 0
  }

  /** The cell holds a piece whose name starts with `kind`. */
  predicate Holds(st: State, x: int, y: int, kind: char) {
    (x, y) in st.board && |st.board[(x, y)]| > 0 && st.board[(x, y)][0] == kind
  }

  predicate IsBlank(st: State, x: int, y: int) {
    (x, y) in st.board && st.board[(x, y)] == Blank
  }

  /**
   * The moves of the Jedi `p` sliding along (dx, dy) starting at (x, y): every blank
   * cell up to the first occupied one, which is included only when it holds a Sith.
   */
  function Slide(st: State, p: Piece, dx: int, dy: int, x: int, y: int): seq<Action>
    requires Legal(st) && UnitStep(dx, dy)
    decreases Span(st.size, x, y, dx, dy)
  {
    if !IsValid(st, x, y) then []
    else if st.board[(x, y)] != Blank then
      if st.board[(x, y)][0] == 'S' then [Action(st.maxsTurn, p.0, x, y, p.1, p.2)] else []
    else
      [Action(st.maxsTurn, p.0, x, y, p.1, p.2)] + Slide(st, p, dx, dy, x + dx, y + dy)
  }

  /** The slides of the Jedi `p` along the first `m` directions. */
  function JediDirections(st: State, p: Piece, m: nat): seq<Action>
    requires Legal(st) && m <= |Directions|
  {
    if m == 0 then []
    else
      var (dx, dy) := Directions[m - 1];
      JediDirections(st, p, m - 1) + Slide(st, p, dx, dy, p.1 + dx, p.2 + dy)
  }

  /** One more direction adds the slide along it. */
  lemma JediDirectionsNext(st: State, p: Piece, m: nat)
    requires Legal(st) && m < |Directions|
    ensures UnitStep(Directions[m].0, Directions[m].1)
    ensures JediDirections(st, p, m + 1) ==
            JediDirections(st, p, m) + Slide(st, p, Directions[m].0, Directions[m].1, p.1 + Directions[m].0, p.2 + Directions[m].1)
  {
  }

  function JediMovesUpTo(st: State, n: nat): seq<Action>
    requires Legal(st) && n <= |st.jedi|
  {
    if n == 0 then [] else JediMovesUpTo(st, n - 1) + JediDirections(st, st.jedi[n - 1], |Directions|)
  }

  /** jediActions: every Jedi in list order, each direction in `Directions` order. */
  function JediMoves(st: State): seq<Action>
    requires Legal(st)
  {
    JediMovesUpTo(st, |st.jedi|)
  }

  /** The move of the Sith `p` by (dx, dy), if it lands on the board and not on a Sith. */
  function SithTarget(st: State, p: Piece, dx: int, dy: int): seq<Action>
    requires Legal(st)
  {
    var x, y := p.1 + dx, p.2 + dy;
    if IsValid(st, x, y) && st.board[(x, y)][0] != 'S' then [Action(st.maxsTurn, p.0, x, y, p.1, p.2)] else []
  }

  /** Offsets (dx, -1), ..., (dx, n - 2), in that order. */
  function SithColumn(st: State, p: Piece, dx: int, n: nat): seq<Action>
    requires Legal(st) && n <= 3
  {
    if n == 0 then [] else SithColumn(st, p, dx, n - 1) + SithTarget(st, p, dx, n - 2)
  }

  /** Columns dx = -1, ..., n - 2, each over every dy: the nine offsets around `p`, row by row. */
  function SithRing(st: State, p: Piece, n: nat): seq<Action>
    requires Legal(st) && n <= 3
  {
    if n == 0 then [] else SithRing(st, p, n - 1) + SithColumn(st, p, n - 2, 3)
  }

  function SithCandidatesUpTo(st: State, n: nat): seq<Action>
    requires Legal(st) && n <= |st.sith|
  {
    if n == 0 then [] else SithCandidatesUpTo(st, n - 1) + SithRing(st, st.sith[n - 1], 3)
  }

  /** Every Sith in list order, each with its nine surrounding offsets. */
  function SithCandidates(st: State): seq<Action>
    requires Legal(st)
  {
    SithCandidatesUpTo(st, |st.sith|)
  }

  predicate Stays(a: Action) {
    a.x == a.oldX && a.y == a.oldY
  }

  /** The indices below `n` of the actions that leave the piece where it is, ascending. */
  function StayIndices(acts: seq<Action>, n: nat): (idx: seq<nat>)
    requires n <= |acts|
    ensures forall i: nat :: i in idx <==> i < n && Stays(acts[i])
  {
    if n == 0 then []
    else StayIndices(acts, n - 1) + (if Stays(acts[n - 1]) then [n - 1] else [])
  }

  /** `del acts[i]`, skipped when `i` is past the end of the (already shortened) list. */
  function DeleteAt(acts: seq<Action>, i: nat): seq<Action> {
    if i < |acts| then acts[..i] + acts[i + 1..] else acts
  }

  /** `for i in idx[..n]: del acts[i]`, each deletion shifting the later entries down. */
  function DeleteEach(acts: seq<Action>, idx: seq<nat>, n: nat): seq<Action>
    requires n <= |idx|
  {
    if n == 0 then acts else DeleteAt(DeleteEach(acts, idx, n - 1), idx[n - 1])
  }

  /** The removal pass of sithActions: delete, in ascending order, the indices of the staying moves. */
  function RemovePass(cands: seq<Action>): seq<Action> {
    var stays := StayIndices(cands, |cands|);
    DeleteEach(cands, stays, |stays|)
  }

  /** sithActions: the candidates, then the removal pass over the staying ones. */
  function SithMoves(st: State): seq<Action>
    requires Legal(st)
  {
    RemovePass(SithCandidates(st))
  }

  /** The capture of a Sith diagonally ahead of the Rebel `p`, in column p.2 + dc. */
  function RebelCapture(st: State, p: Piece, dc: int): seq<Action>
    requires Legal(st)
  {
    var x, y := p.1 - 1, p.2 + dc;
    if IsValid(st, x, y) && st.board[(x, y)][0] == 'S' then [Action(st.maxsTurn, p.0, x, y, p.1, p.2)] else []
  }

  /** The step straight ahead of the Rebel `p`, under the guard of rebelActions. */
  function RebelForward(st: State, p: Piece): seq<Action>
    requires Legal(st)
  {
    var x, y := p.1 - 1, p.2;
    if IsValid(st, x, y) && (st.board[(x, y)][0] != 'S' || st.board[(x, y)][0] != 'J')
    then [Action(st.maxsTurn, p.0, x, y, p.1, p.2)] else []
  }

  /** The diagonal captures (right, then left) and the forward step of the Rebel `p`. */
  function RebelSteps(st: State, p: Piece): seq<Action>
    requires Legal(st)
  {
    RebelCapture(st, p, 1) + RebelCapture(st, p, -1) + RebelForward(st, p)
  }

  function RebelMovesUpTo(st: State, n: nat): seq<Action>
    requires Legal(st) && n <= |st.rebels|
  {
    if n == 0 then [] else RebelMovesUpTo(st, n - 1) + RebelSteps(st, st.rebels[n - 1])
  }

  /** rebelActions: every Rebel in list order. */
  function RebelMoves(st: State): seq<Action>
    requires Legal(st)
  {
    RebelMovesUpTo(st, |st.rebels|)
  }

  /** actions: Max moves Rebels then Jedi, Min moves the Sith. */
  function AllMoves(st: State): seq<Action>
    requires Legal(st)
  {
    if st.maxsTurn then RebelMoves(st) + JediMoves(st) else SithMoves(st)
  }

  // ---------------------------------------------------------------------------
  // What the generated moves look like.
  // ---------------------------------------------------------------------------

  /** Every action lies on the board, belongs to the player to move and starts where `p` stands. */
  predicate MovesOf(st: State, p: Piece, acts: seq<Action>) {
    forall a :: a in acts ==>
      && a.who == st.maxsTurn && a.piece == p.0 && a.oldX == p.1 && a.oldY == p.2
      && IsValid(st, a.x, a.y)
  }

  /** Every action lies on the board, belongs to the player to move and moves one of `pieces`. */
  predicate MovesBy(st: State, pieces: seq<Piece>, acts: seq<Action>) {
    forall a :: a in acts ==>
      a.who == st.maxsTurn && IsValid(st, a.x, a.y) && (a.piece, a.oldX, a.oldY) in pieces
  }

  /** A Jedi may end on a blank cell or on a Sith. */
  predicate JediLanding(st: State, acts: seq<Action>) {
    forall a :: a in acts ==> IsBlank(st, a.x, a.y) || Holds(st, a.x, a.y, 'S')
  }

  /** A Sith steps to one of the eight cells around it (or stays), never onto a Sith. */
  predicate SithStepping(st: State, acts: seq<Action>) {
    forall a :: a in acts ==>
      -1 <= a.x - a.oldX <= 1 && -1 <= a.y - a.oldY <= 1 && !Holds(st, a.x, a.y, 'S')
  }

  /** A Rebel advances one row; it moves diagonally only to capture a Sith. */
  predicate RebelAdvancing(st: State, acts: seq<Action>) {
    forall a :: a in acts ==>
      a.x == a.oldX - 1 && -1 <= a.y - a.oldY <= 1 && (a.y != a.oldY ==> Holds(st, a.x, a.y, 'S'))
  }

  lemma {:induction false} SlideLands(st: State, p: Piece, dx: int, dy: int, x: int, y: int)
    requires Legal(st) && UnitStep(dx, dy)
    decreases Span(st.size, x, y, dx, dy)
    ensures MovesOf(st, p, Slide(st, p, dx, dy, x, y)) && JediLanding(st, Slide(st, p, dx, dy, x, y))
  {
    if IsValid(st, x, y) && st.board[(x, y)] == Blank {
      SlideLands(st, p, dx, dy, x + dx, y + dy);
    }
  }

  lemma {:induction false} JediDirectionsLand(st: State, p: Piece, m: nat)
    requires Legal(st) && m <= |Directions|
    ensures MovesOf(st, p, JediDirections(st, p, m)) && JediLanding(st, JediDirections(st, p, m))
  {
    if m > 0 {
      JediDirectionsLand(st, p, m - 1);
      var (dx, dy) := Directions[m - 1];
      SlideLands(st, p, dx, dy, p.1 + dx, p.2 + dy);
    }
  }

  /** Jedi moves start from a listed Jedi and end on a blank or a Sith. */
  lemma {:induction false} JediMovesWellFormed(st: State, n: nat)
    requires Legal(st) && n <= |st.jedi|
    ensures MovesBy(st, st.jedi[..n], JediMovesUpTo(st, n)) && JediLanding(st, JediMovesUpTo(st, n))
  {
    if n > 0 {
      JediMovesWellFormed(st, n - 1);
      JediDirectionsLand(st, st.jedi[n - 1], |Directions|);
      assert forall q :: q in st.jedi[..n - 1] ==> q in st.jedi[..n];
      assert st.jedi[n - 1] in st.jedi[..n];
    }
  }

  lemma {:induction false} SithColumnSteps(st: State, p: Piece, dx: int, n: nat)
    requires Legal(st) && n <= 3 && -1 <= dx <= 1
    ensures MovesOf(st, p, SithColumn(st, p, dx, n)) && SithStepping(st, SithColumn(st, p, dx, n))
  {
    if n > 0 {
      SithColumnSteps(st, p, dx, n - 1);
    }
  }

  lemma {:induction false} SithRingSteps(st: State, p: Piece, n: nat)
    requires Legal(st) && n <= 3
    ensures MovesOf(st, p, SithRing(st, p, n)) && SithStepping(st, SithRing(st, p, n))
  {
    if n > 0 {
      SithRingSteps(st, p, n - 1);
      SithColumnSteps(st, p, n - 2, 3);
    }
  }

  /** Sith candidates start from a listed Sith and step around it, never onto a Sith. */
  lemma {:induction false} SithCandidatesWellFormed(st: State, n: nat)
    requires Legal(st) && n <= |st.sith|
    ensures MovesBy(st, st.sith[..n], SithCandidatesUpTo(st, n)) && SithStepping(st, SithCandidatesUpTo(st, n))
  {
    if n > 0 {
      SithCandidatesWellFormed(st, n - 1);
      SithRingSteps(st, st.sith[n - 1], 3);
      assert forall q :: q in st.sith[..n - 1] ==> q in st.sith[..n];
      assert st.sith[n - 1] in st.sith[..n];
    }
  }

  /** The removal pass only ever drops actions. */
  lemma {:induction false} DeleteEachKeeps(acts: seq<Action>, idx: seq<nat>, n: nat)
    requires n <= |idx|
    ensures forall a :: a in DeleteEach(acts, idx, n) ==> a in acts
  {
    if n > 0 {
      DeleteEachKeeps(acts, idx, n - 1);
      var r := DeleteEach(acts, idx, n - 1);
      var i := idx[n - 1];
      if i < |r| {
        assert forall a :: a in r[..i] + r[i + 1..] ==> a in r;
      }
    }
  }

  lemma RebelStepsAdvance(st: State, p: Piece)
    requires Legal(st)
    ensures MovesOf(st, p, RebelSteps(st, p)) && RebelAdvancing(st, RebelSteps(st, p))
  {
  }

  /** Rebel moves start from a listed Rebel and go one row up, diagonally only onto a Sith. */
  lemma {:induction false} RebelMovesWellFormed(st: State, n: nat)
    requires Legal(st) && n <= |st.rebels|
    ensures MovesBy(st, st.rebels[..n], RebelMovesUpTo(st, n)) && RebelAdvancing(st, RebelMovesUpTo(st, n))
  {
    if n > 0 {
      RebelMovesWellFormed(st, n - 1);
      RebelStepsAdvance(st, st.rebels[n - 1]);
      assert forall q :: q in st.rebels[..n - 1] ==> q in st.rebels[..n];
      assert st.rebels[n - 1] in st.rebels[..n];
    }
  }

  /** The k-th move of a slide lands k steps along the direction from its first cell. */
  lemma {:induction false} SlideCells(st: State, p: Piece, dx: int, dy: int, x: int, y: int)
    requires Legal(st) && UnitStep(dx, dy)
    decreases Span(st.size, x, y, dx, dy)
    ensures var sl := Slide(st, p, dx, dy, x, y);
            forall k :: 0 <= k < |sl| ==>
              sl[k] == Action(st.maxsTurn, p.0, Step(x, dx, k), Step(y, dy, k), p.1, p.2)
  {
    if IsValid(st, x, y) && st.board[(x, y)] == Blank {
      var sl := Slide(st, p, dx, dy, x, y);
      var rest := Slide(st, p, dx, dy, x + dx, y + dy);
      SlideCells(st, p, dx, dy, x + dx, y + dy);
      assert sl == [Action(st.maxsTurn, p.0, x, y, p.1, p.2)] + rest;
      forall k | 0 < k < |sl|
        ensures sl[k] == Action(st.maxsTurn, p.0, Step(x, dx, k), Step(y, dy, k), p.1, p.2)
      {
        StepShift(x, dx, k - 1);
        StepShift(y, dy, k - 1);
        assert sl[k] == rest[k - 1];
      }
    }
  }

  /** A slide passes only over blank cells: every move but the last lands on a blank. */
  lemma {:induction false} SlideOverBlanks(st: State, p: Piece, dx: int, dy: int, x: int, y: int)
    requires Legal(st) && UnitStep(dx, dy)
    decreases Span(st.size, x, y, dx, dy)
    ensures var sl := Slide(st, p, dx, dy, x, y);
            forall k :: 0 <= k < |sl| - 1 ==> IsBlank(st, Step(x, dx, k), Step(y, dy, k))
  {
    if IsValid(st, x, y) && st.board[(x, y)] == Blank {
      var rest := Slide(st, p, dx, dy, x + dx, y + dy);
      SlideOverBlanks(st, p, dx, dy, x + dx, y + dy);
      assert |Slide(st, p, dx, dy, x, y)| == |rest| + 1;
      forall k | 0 < k < |rest|
        ensures IsBlank(st, Step(x, dx, k), Step(y, dy, k))
      {
        StepShift(x, dx, k - 1);
        StepShift(y, dy, k - 1);
      }
    }
  }

  /**
   * A slide that does not end on a Sith ends just before the edge of the board or
   * before a cell holding a piece that is not a Sith: it goes as far as it can.
   */
  lemma {:induction false} SlideIsMaximal(st: State, p: Piece, dx: int, dy: int, x: int, y: int)
    requires Legal(st) && UnitStep(dx, dy)
    decreases Span(st.size, x, y, dx, dy)
    ensures var n := |Slide(st, p, dx, dy, x, y)|;
            n == 0 || IsBlank(st, Step(x, dx, n - 1), Step(y, dy, n - 1)) ==>
              !IsValid(st, Step(x, dx, n), Step(y, dy, n)) ||
              (!IsBlank(st, Step(x, dx, n), Step(y, dy, n)) && !Holds(st, Step(x, dx, n), Step(y, dy, n), 'S'))
  {
    if IsValid(st, x, y) && st.board[(x, y)] == Blank {
      var m := |Slide(st, p, dx, dy, x + dx, y + dy)|;
      SlideIsMaximal(st, p, dx, dy, x + dx, y + dy);
      assert |Slide(st, p, dx, dy, x, y)| == m + 1;
      StepShift(x, dx, m);
      StepShift(y, dy, m);
      if m > 0 {
        StepShift(x, dx, m - 1);
        StepShift(y, dy, m - 1);
      }
    } else if IsValid(st, x, y) && st.board[(x, y)][0] == 'S' {
      assert !IsBlank(st, x, y);
    }
  }

  lemma StepShift(x: int, d: int, k: nat)
    requires -1 <= d <= 1
    ensures Step(x + d, d, k) == Step(x, d, k + 1)
  {
  }

  // ---------------------------------------------------------------------------
  // List and board edits.
  // ---------------------------------------------------------------------------

  /** `ps.index(p)`: the position of the first occurrence. */
  function IndexOf(ps: seq<Piece>, p: Piece): (i: nat)
    requires p in ps
    ensures i < |ps| && ps[i] == p && p !in ps[..i]
  {
    if ps[0] == p then 0
    else
      var j := IndexOf(ps[1..], p);
      assert ps[..j + 1] == [ps[0]] + ps[1..][..j];
      j + 1
  }

  /** `ps[ps.index(p)] = q`. */
  function ReplaceFirst(ps: seq<Piece>, p: Piece, q: Piece): (r: seq<Piece>)
    requires p in ps
    ensures |r| == |ps| && q in r
    ensures multiset(r) == multiset(ps) - multiset{p} + multiset{q}
  {
    var i := IndexOf(ps, p);
    assert ps == ps[..i] + [p] + ps[i + 1..];
    assert ps[i := q] == ps[..i] + [q] + ps[i + 1..];
    ps[i := q]
  }

  /** `del ps[ps.index(p)]`. */
  function RemoveFirst(ps: seq<Piece>, p: Piece): (r: seq<Piece>)
    requires p in ps
    ensures |r| == |ps| - 1
    ensures multiset(r) == multiset(ps) - multiset{p}
  {
    var i := IndexOf(ps, p);
    assert ps == ps[..i] + [p] + ps[i + 1..];
    ps[..i] + ps[i + 1..]
  }

  /** The cell exists and can be inspected (`gameState[x, y][0]` does not fail). */
  predicate Occupiable(st: State, x: int, y: int) {
    (x, y) in st.board && |st.board[(x, y)]| > 0
  }

  /** `after` is `before` with `v` written on `to` and then `from` blanked. */
  predicate BoardMove(before: map<Cell, string>, after: map<Cell, string>, from: Cell, to: Cell, v: string) {
    && from in after && after[from] == Blank
    && (to != from ==> to in after && after[to] == v)
    && (forall c :: c in before && c != from && c != to ==> c in after && after[c] == before[c])
    && (forall c :: c in after ==> c in before || c == from || c == to)
  }

  /** `after` is `before` with only `cell` overwritten by `v`. */
  predicate BoardWrite(before: map<Cell, string>, after: map<Cell, string>, cell: Cell, v: string) {
    && cell in after && after[cell] == v
    && (forall c :: c in before && c != cell ==> c in after && after[c] == before[c])
    && (forall c :: c in after ==> c in before || c == cell)
  }

  /** Size, turn, move count and the cached result are untouched. */
  predicate SameFrame(r: State, st: State) {
    r.size == st.size && r.maxsTurn == st.maxsTurn && r.moveCount == st.moveCount
    && r.cachedWin == st.cachedWin && r.cachedWinner == st.cachedWinner
  }

  // ---------------------------------------------------------------------------
  // Applying a move.
  // ---------------------------------------------------------------------------

  /** What updateJedi needs to look up without failing. */
  predicate JediMovePre(st: State, a: Action) {
    && Occupiable(st, a.x, a.y)
    && (a.piece, a.oldX, a.oldY) in st.jedi
    && (Holds(st, a.x, a.y, 'S') ==> (st.board[(a.x, a.y)], a.x, a.y) in st.sith)
  }

  /** updateJedi: the Jedi moves, capturing the Sith on the target cell if there is one. */
  function JediMoved(st: State, a: Action): (r: State)
    requires JediMovePre(st, a)
    ensures SameFrame(r, st) && r.rebels == st.rebels
    ensures |r.jedi| == |st.jedi| && (a.piece, a.x, a.y) in r.jedi
    ensures multiset(r.jedi) == multiset(st.jedi) - multiset{(a.piece, a.oldX, a.oldY)} + multiset{(a.piece, a.x, a.y)}
    ensures Holds(st, a.x, a.y, 'S') ==>
              |r.sith| == |st.sith| - 1 && multiset(r.sith) == multiset(st.sith) - multiset{(st.board[(a.x, a.y)], a.x, a.y)}
    ensures !Holds(st, a.x, a.y, 'S') ==> r.sith == st.sith
    ensures BoardMove(st.board, r.board, (a.oldX, a.oldY), (a.x, a.y), a.piece)
  {
    var target := st.board[(a.x, a.y)];
    var jedi := ReplaceFirst(st.jedi, (a.piece, a.oldX, a.oldY), (a.piece, a.x, a.y));
    var board := st.board[(a.x, a.y) := a.piece][(a.oldX, a.oldY) := Blank];
    if target[0] == 'S' then
      st.(board := board, jedi := jedi, sith := RemoveFirst(st.sith, (target, a.x, a.y)))
    else
      st.(board := board, jedi := jedi)
  }

  /** What updateSith needs to look up without failing. */
  predicate SithMovePre(st: State, a: Action) {
    && Occupiable(st, a.x, a.y)
    && (IsBlank(st, a.x, a.y) || Holds(st, a.x, a.y, 'R') ==> (a.piece, a.oldX, a.oldY) in st.sith)
    && (Holds(st, a.x, a.y, 'R') ==> (st.board[(a.x, a.y)], a.x, a.y) in st.rebels)
  }

  /**
   * updateSith: onto a blank the Sith moves; onto a listed Jedi the Jedi turns into a
   * new Sith while the attacker stays where it was; onto a Rebel it captures and
   * moves; onto anything else nothing happens.
   */
  function SithMoved(st: State, a: Action): (r: State)
    requires SithMovePre(st, a)
    ensures SameFrame(r, st)
    ensures IsBlank(st, a.x, a.y) || Holds(st, a.x, a.y, 'R') ==>
              && |r.sith| == |st.sith| && (a.piece, a.x, a.y) in r.sith
              && multiset(r.sith) == multiset(st.sith) - multiset{(a.piece, a.oldX, a.oldY)} + multiset{(a.piece, a.x, a.y)}
              && r.jedi == st.jedi
              && BoardMove(st.board, r.board, (a.oldX, a.oldY), (a.x, a.y), a.piece)
    ensures IsBlank(st, a.x, a.y) ==> r.rebels == st.rebels
    ensures Holds(st, a.x, a.y, 'R') ==>
              |r.rebels| == |st.rebels| - 1 && multiset(r.rebels) == multiset(st.rebels) - multiset{(st.board[(a.x, a.y)], a.x, a.y)}
    ensures Holds(st, a.x, a.y, 'J') && (st.board[(a.x, a.y)], a.x, a.y) in st.jedi ==>
              var name := PieceName('S', |st.sith|);
              && r.sith == st.sith + [(name, a.x, a.y)] && r.rebels == st.rebels
              && |r.jedi| == |st.jedi| - 1 && multiset(r.jedi) == multiset(st.jedi) - multiset{(st.board[(a.x, a.y)], a.x, a.y)}
              && BoardWrite(st.board, r.board, (a.x, a.y), name)
    ensures (!IsBlank(st, a.x, a.y) && !Holds(st, a.x, a.y, 'R') &&
             !(Holds(st, a.x, a.y, 'J') && (st.board[(a.x, a.y)], a.x, a.y) in st.jedi)) ==> r == st
  {
    var target := st.board[(a.x, a.y)];
    if target == Blank then
      st.(board := st.board[(a.x, a.y) := a.piece][(a.oldX, a.oldY) := Blank],
          sith := ReplaceFirst(st.sith, (a.piece, a.oldX, a.oldY), (a.piece, a.x, a.y)))
    else if target[0] == 'J' then
      if (target, a.x, a.y) in st.jedi then
        var name := PieceName('S', |st.sith|);
        st.(board := st.board[(a.x, a.y) := name],
            sith := st.sith + [(name, a.x, a.y)],
            jedi := RemoveFirst(st.jedi, (target, a.x, a.y)))
      else st
    else if target[0] == 'R' then
      st.(board := st.board[(a.x, a.y) := a.piece][(a.oldX, a.oldY) := Blank],
          sith := ReplaceFirst(st.sith, (a.piece, a.oldX, a.oldY), (a.piece, a.x, a.y)),
          rebels := RemoveFirst(st.rebels, (target, a.x, a.y)))
    else st
  }

  /** What updateRebels needs to look up without failing. */
  predicate RebelMovePre(st: State, a: Action) {
    && Occupiable(st, a.x, a.y)
    && (IsBlank(st, a.x, a.y) || Holds(st, a.x, a.y, 'S') ==> (a.piece, a.oldX, a.oldY) in st.rebels)
    && (Holds(st, a.x, a.y, 'S') ==> (st.board[(a.x, a.y)], a.x, a.y) in st.sith)
  }

  /**
   * updateRebels: onto a blank or a Sith (which is captured) the Rebel moves, and on
   * row 0 it is promoted to a new Jedi; onto anything else nothing happens.
   */
  function RebelMoved(st: State, a: Action): (r: State)
    requires RebelMovePre(st, a)
    ensures SameFrame(r, st)
    ensures (IsBlank(st, a.x, a.y) || Holds(st, a.x, a.y, 'S')) && a.x == 0 ==>
              var name := PieceName('J', |st.jedi|);
              && |r.rebels| == |st.rebels| - 1 && multiset(r.rebels) == multiset(st.rebels) - multiset{(a.piece, a.oldX, a.oldY)}
              && r.jedi == st.jedi + [(name, 0, a.y)]
              && BoardMove(st.board, r.board, (a.oldX, a.oldY), (a.x, a.y), name)
    ensures (IsBlank(st, a.x, a.y) || Holds(st, a.x, a.y, 'S')) && a.x != 0 ==>
              && |r.rebels| == |st.rebels| && (a.piece, a.x, a.y) in r.rebels
              && multiset(r.rebels) == multiset(st.rebels) - multiset{(a.piece, a.oldX, a.oldY)} + multiset{(a.piece, a.x, a.y)}
              && r.jedi == st.jedi
              && BoardMove(st.board, r.board, (a.oldX, a.oldY), (a.x, a.y), a.piece)
    ensures Holds(st, a.x, a.y, 'S') ==>
              |r.sith| == |st.sith| - 1 && multiset(r.sith) == multiset(st.sith) - multiset{(st.board[(a.x, a.y)], a.x, a.y)}
    ensures IsBlank(st, a.x, a.y) ==> r.sith == st.sith
    ensures !IsBlank(st, a.x, a.y) && !Holds(st, a.x, a.y, 'S') ==> r == st
  {
    var target := st.board[(a.x, a.y)];
    var from := (a.piece, a.oldX, a.oldY);
    if target == Blank then
      if a.x == 0 then
        var name := PieceName('J', |st.jedi|);
        st.(board := st.board[(a.x, a.y) := name][(a.oldX, a.oldY) := Blank],
            jedi := st.jedi + [(name, a.x, a.y)],
            rebels := RemoveFirst(st.rebels, from))
      else
        st.(board := st.board[(a.x, a.y) := a.piece][(a.oldX, a.oldY) := Blank],
            rebels := ReplaceFirst(st.rebels, from, (a.piece, a.x, a.y)))
    else if target[0] == 'S' then
      var sith := RemoveFirst(st.sith, (target, a.x, a.y));
      if a.x == 0 then
        var name := PieceName('J', |st.jedi|);
        st.(board := st.board[(a.x, a.y) := name][(a.oldX, a.oldY) := Blank],
            jedi := st.jedi + [(name, a.x, a.y)],
            rebels := RemoveFirst(st.rebels, from),
            sith := sith)
      else
        st.(board := st.board[(a.x, a.y) := a.piece][(a.oldX, a.oldY) := Blank],
            rebels := ReplaceFirst(st.rebels, from, (a.piece, a.x, a.y)),
            sith := sith)
    else st
  }

  /** The utility of a state: 61 for a cached Rebel win, -61 for any other cached win, else 0. */
  function Utility(st: State): (u: int)
    ensures u == 61 || u == -61 || u == 0
    ensures u != 0 <==> st.cachedWin
    ensures u > 0 <==> st.cachedWin && st.cachedWinner == Some(true)
  {
    if st.cachedWin && st.cachedWinner == Some(true) then 61
    else if st.cachedWin && st.cachedWinner != Some(true) then -61
    else 0
  }

  /** One side has no pieces left. */
  predicate Won(st: State) {
    |st.jedi| + |st.rebels| == 0 || |st.sith| == 0
  }

  /**
   * _cache_winner: when one side has no pieces left the win is credited to `who`,
   * the player who just moved.
   */
  function WinnerCached(st: State, who: bool): (r: State)
    ensures r.(cachedWin := st.cachedWin, cachedWinner := st.cachedWinner) == st
    ensures r.cachedWin == (st.cachedWin || Won(st))
    ensures IsTerminal(r) == IsTerminal(st)
    ensures Utility(r) == if Won(st) then (if who then 61 else -61) else Utility(st)
  {
    var won := if |st.jedi| + |st.rebels| == 0 then true else if |st.sith| == 0 then true else false;
    if won then st.(cachedWin := true, cachedWinner := Some(who)) else st
  }

  /** What the update that result dispatches to needs in order not to fail. */
  predicate ApplyPre(c: State, a: Action) {
    if a.who then
      |a.piece| > 0 && (if a.piece[0] == 'R' then RebelMovePre(c, a) else JediMovePre(c, a))
    else SithMovePre(c, a)
  }

  /** The dispatch in result: Rebel moves, other moves of Max (Jedi), moves of Min (Sith). */
  function Apply(c: State, a: Action): (r: State)
    requires ApplyPre(c, a)
    ensures SameFrame(r, c)
    ensures a.who ==> |r.sith| <= |c.sith| && |r.jedi| + |r.rebels| == |c.jedi| + |c.rebels|
    ensures !a.who ==> |r.jedi| + |r.rebels| <= |c.jedi| + |c.rebels|
    ensures |r.jedi| + |r.rebels| + |r.sith| <= |c.jedi| + |c.rebels| + |c.sith|
  {
    if a.who then (if a.piece[0] == 'R' then RebelMoved(c, a) else JediMoved(c, a))
    else SithMoved(c, a)
  }

  /** What result needs: the dispatched update must not fail on the cloned state. */
  predicate ResultPre(st: State, a: Action) {
    ApplyPre(Cloned(st, st.size), a)
  }

  /** result: clone, apply the move of the player in `a.who`, flip the turn, cache a win. */
  function Successor(st: State, a: Action): (r: State)
    requires ResultPre(st, a)
    ensures r.size == st.size && r.moveCount == st.moveCount && r.maxsTurn == !st.maxsTurn
    ensures r.cachedWin == (st.cachedWin || Won(r))
    ensures Utility(r) == if Won(r) then (if a.who then 61 else -61) else Utility(st)
    ensures a.who ==> |r.sith| <= |st.sith| && |r.jedi| + |r.rebels| == |st.jedi| + |st.rebels|
    ensures !a.who ==> |r.jedi| + |r.rebels| <= |st.jedi| + |st.rebels|
    ensures |r.jedi| + |r.rebels| + |r.sith| <= |st.jedi| + |st.rebels| + |st.sith|
  {
    var moved := Apply(Cloned(st, st.size), a);
    WinnerCached(moved.(maxsTurn := !st.maxsTurn), a.who)
  }

  // ---------------------------------------------------------------------------
  // Properties of the rules.
  // ---------------------------------------------------------------------------

  /** The pieces of `row` stand on the bottom row, piece i in column i. */
  predicate BottomRow(row: seq<Piece>, size: int) {
    forall i :: 0 <= i < |row| ==> row[i].1 == size - 1 && row[i].2 == i
  }

  /** Placing a bottom row adds exactly its cells to the board. */
  lemma {:induction false} PlaceRowKeys(b: map<Cell, string>, row: seq<Piece>, size: int)
    requires BottomRow(row, size)
    ensures forall x, y :: (x, y) in Place(b, row) <==> (x, y) in b || (x == size - 1 && 0 <= y < |row|)
  {
    if row != [] {
      PlaceRowKeys(b, row[..|row| - 1], size);
    }
  }

  /** Placing a bottom row leaves every other cell alone. */
  lemma {:induction false} PlaceRowKeeps(b: map<Cell, string>, row: seq<Piece>, size: int)
    requires BottomRow(row, size)
    ensures forall x, y :: (x, y) in b && !(x == size - 1 && 0 <= y < |row|) ==>
              (x, y) in Place(b, row) && Place(b, row)[(x, y)] == b[(x, y)]
  {
    if row != [] {
      PlaceRowKeeps(b, row[..|row| - 1], size);
    }
  }

  /** Placing a bottom row writes each piece's name on its own cell. */
  lemma {:induction false} PlaceRowNames(b: map<Cell, string>, row: seq<Piece>, size: int)
    requires BottomRow(row, size)
    ensures forall i :: 0 <= i < |row| ==>
              (row[i].1, row[i].2) in Place(b, row) && Place(b, row)[(row[i].1, row[i].2)] == row[i].0
  {
    if row != [] {
      var init, last := row[..|row| - 1], row[|row| - 1];
      PlaceRowNames(b, init, size);
      assert Place(b, row) == Place(b, init)[(last.1, last.2) := last.0];
      forall i | 0 <= i < |row| - 1
        ensures (row[i].1, row[i].2) in Place(b, row) && Place(b, row)[(row[i].1, row[i].2)] == row[i].0
      {
        assert row[i] == init[i] && last.2 != row[i].2;
      }
    }
  }

  /** Rebel i of the bottom row is "Ri", standing in column i of the last row. */
  lemma {:induction false} RebelRowPieces(size: int, n: nat)
    ensures forall i :: 0 <= i < n ==> RebelRow(size, n)[i] == (PieceName('R', i), size - 1, i)
  {
    if n > 0 {
      RebelRowPieces(size, n - 1);
      assert forall i :: 0 <= i < n - 1 ==> RebelRow(size, n)[i] == RebelRow(size, n - 1)[i];
    }
  }

  /** The board before the Rebels are placed: blanks and the Sith "S0" at the top middle. */
  lemma SithOnBlankBoard(size: int)
    requires size >= 1
    ensures forall x, y :: (x, y) in SithBoard(size) <==> 0 <= x < size && 0 <= y < size
    ensures forall x, y :: (x, y) in SithBoard(size) ==>
              SithBoard(size)[(x, y)] == if x == 0 && y == size / 2 then PieceName('S', 0) else Blank
  {
  }

  /** The initial board covers exactly the size-by-size grid. */
  lemma InitialKeys(size: int)
    requires size >= 1
    ensures forall x, y :: (x, y) in Place(SithBoard(size), RebelRow(size, size)) <==> 0 <= x < size && 0 <= y < size
  {
    SithOnBlankBoard(size);
    RebelRowPieces(size, size);
    PlaceRowKeys(SithBoard(size), RebelRow(size, size), size);
  }

  /** Cell (size - 1, y) of the initial board holds Rebel "Ry". */
  lemma InitialBottomCell(size: int, y: int)
    requires size >= 1 && 0 <= y < size
    ensures var b := Place(SithBoard(size), RebelRow(size, size));
            (size - 1, y) in b && b[(size - 1, y)] == PieceName('R', y)
  {
    var row := RebelRow(size, size);
    RebelRowPieces(size, size);
    PlaceRowNames(SithBoard(size), row, size);
    assert row[y] == (PieceName('R', y), size - 1, y);
  }

  /** Above the bottom row the initial board is blank except for "S0" at the top middle. */
  lemma InitialUpperCell(size: int, x: int, y: int)
    requires size >= 1 && 0 <= x < size - 1 && 0 <= y < size
    ensures var b := Place(SithBoard(size), RebelRow(size, size));
            (x, y) in b && b[(x, y)] == if x == 0 && y == size / 2 then PieceName('S', 0) else Blank
  {
    var base := SithBoard(size);
    SithOnBlankBoard(size);
    RebelRowPieces(size, size);
    PlaceRowKeeps(base, RebelRow(size, size), size);
    assert (x, y) in base;
  }

  /** The initial board: Rebel "Ry" in column y of the bottom row, "S0" at the top middle, blanks elsewhere. */
  lemma InitialValues(size: int)
    requires size >= 1
    ensures var b := Place(SithBoard(size), RebelRow(size, size));
            forall x, y :: 0 <= x < size && 0 <= y < size ==>
              (x, y) in b &&
              b[(x, y)] ==
                if x == size - 1 then PieceName('R', y)
                else if x == 0 && y == size / 2 then PieceName('S', 0)
                else Blank
  {
    forall x, y | 0 <= x < size && 0 <= y < size
      ensures var b := Place(SithBoard(size), RebelRow(size, size));
              (x, y) in b &&
              b[(x, y)] ==
                if x == size - 1 then PieceName('R', y)
                else if x == 0 && y == size / 2 then PieceName('S', 0)
                else Blank
    {
      if x == size - 1 {
        InitialBottomCell(size, y);
      } else {
        InitialUpperCell(size, x, y);
      }
    }
  }

  /**
   * The initial board covers exactly the size-by-size grid: Rebels "R0", "R1", ... on the
   * bottom row, the Sith "S0" in the middle of the top row, blanks elsewhere.
   */
  lemma InitialLayout(size: int)
    requires size >= 1
    ensures var st := Initial(size);
            && (forall x, y :: (x, y) in st.board <==> IsValid(st, x, y))
            && (forall x, y :: IsValid(st, x, y) ==>
                  st.board[(x, y)] ==
                    if x == size - 1 then PieceName('R', y)
                    else if x == 0 && y == size / 2 then PieceName('S', 0)
                    else Blank)
  {
    InitialKeys(size);
    InitialValues(size);
    assert Initial(size).board == Place(SithBoard(size), RebelRow(size, size));
  }

  /** From size 2 on, the initial state's piece lists and board agree. */
  lemma InitialConsistent(size: int)
    requires size >= 2
    ensures Consistent(Initial(size))
    ensures Eval(Initial(size)) == size && !IsTerminal(Initial(size))
  {
    var st := Initial(size);
    InitialLayout(size);
    InitialPiecesOnBoard(size);
    InitialBoardListed(size);
  }

  lemma InitialPiecesOnBoard(size: int)
    requires size >= 2
    ensures var st := Initial(size);
            && Legal(st)
            && (forall p :: p in st.rebels ==> OnOwnSquare(st, p, 'R'))
            && (forall p :: p in st.sith ==> OnOwnSquare(st, p, 'S'))
  {
    var st := Initial(size);
    InitialLayout(size);
    RebelRowPieces(size, size);
    forall p | p in st.rebels
      ensures OnOwnSquare(st, p, 'R')
    {
      var i :| 0 <= i < |st.rebels| && st.rebels[i] == p;
      assert st.board[(size - 1, i)] == PieceName('R', i);
    }
    assert st.board[(0, size / 2)] == PieceName('S', 0);
  }

  lemma InitialBoardListed(size: int)
    requires size >= 2
    ensures var st := Initial(size);
            forall x, y | IsValid(st, x, y) && (x, y) in st.board && |st.board[(x, y)]| > 0 ::
              && (st.board[(x, y)][0] == 'R' ==> (st.board[(x, y)], x, y) in st.rebels)
              && (st.board[(x, y)][0] == 'S' ==> (st.board[(x, y)], x, y) in st.sith)
              && (st.board[(x, y)][0] == 'J' ==> (st.board[(x, y)], x, y) in st.jedi)
  {
    var st := Initial(size);
    InitialLayout(size);
    RebelRowPieces(size, size);
    assert Blank[0] == ' ';
    forall x, y | IsValid(st, x, y)
      ensures var v := st.board[(x, y)];
              && (v[0] == 'R' ==> (v, x, y) in st.rebels)
              && (v[0] == 'S' ==> (v, x, y) in st.sith)
              && (v[0] == 'J' ==> (v, x, y) in st.jedi)
    {
      var v := st.board[(x, y)];
      if x == size - 1 {
        assert v == PieceName('R', y) && v[0] == 'R';
        assert st.rebels[y] == (v, x, y);
      } else if x == 0 && y == size / 2 {
        assert v == PieceName('S', 0) && v[0] == 'S';
        assert st.sith[0] == (v, x, y);
      } else {
        assert v == Blank;
      }
    }
  }

  /** Cloning a well-formed state at its own size changes nothing. */
  lemma CloneIsExact(st: State)
    requires Legal(st) && st.size >= 1
    ensures Cloned(st, st.size) == st
  {
    InitialLayout(st.size);
    var b := Initial(st.size).board + st.board;
    forall c | c in Initial(st.size).board
      ensures c in st.board
    {
      assert IsValid(Initial(st.size), c.0, c.1);
    }
    assert b.Keys == st.board.Keys;
    assert b == st.board;
  }

  /**
   * Every generated move belongs to the player to move, lands on the board and starts
   * from a piece of that player's side: Rebels or Jedi for Max, a Sith for Min, which
   * moves to an adjacent cell that does not hold a Sith.
   */
  lemma MovesWellFormed(st: State)
    requires Legal(st)
    ensures forall a :: a in AllMoves(st) ==>
              && a.who == st.maxsTurn && IsValid(st, a.x, a.y)
              && (st.maxsTurn ==> (a.piece, a.oldX, a.oldY) in st.rebels || (a.piece, a.oldX, a.oldY) in st.jedi)
              && (!st.maxsTurn ==>
                    && (a.piece, a.oldX, a.oldY) in st.sith && !Holds(st, a.x, a.y, 'S')
                    && -1 <= a.x - a.oldX <= 1 && -1 <= a.y - a.oldY <= 1)
  {
    assert st.rebels[..|st.rebels|] == st.rebels;
    assert st.jedi[..|st.jedi|] == st.jedi;
    assert st.sith[..|st.sith|] == st.sith;
    if st.maxsTurn {
      RebelMovesWellFormed(st, |st.rebels|);
      JediMovesWellFormed(st, |st.jedi|);
    } else {
      SithCandidatesWellFormed(st, |st.sith|);
      var c := SithCandidates(st);
      var stays := StayIndices(c, |c|);
      DeleteEachKeeps(c, stays, |stays|);
    }
  }

  /**
   * On a consistent state no Sith candidate stays on its own cell (that cell holds a
   * Sith), so the removal pass of sithActions deletes nothing.
   */
  lemma SithRemovalIsNoOp(st: State)
    requires Consistent(st)
    ensures SithMoves(st) == SithCandidates(st)
    ensures forall a :: a in SithMoves(st) ==> !Stays(a)
  {
    var c := SithCandidates(st);
    assert st.sith[..|st.sith|] == st.sith;
    SithCandidatesWellFormed(st, |st.sith|);
    forall a | a in c
      ensures !Stays(a)
    {
      assert OnOwnSquare(st, (a.piece, a.oldX, a.oldY), 'S');
    }
    StayIndicesEmpty(c, |c|);
  }

  lemma {:induction false} RebelStepsIncluded(st: State, i: nat, n: nat)
    requires Legal(st) && i < n <= |st.rebels|
    ensures forall a :: a in RebelSteps(st, st.rebels[i]) ==> a in RebelMovesUpTo(st, n)
  {
    if i < n - 1 {
      RebelStepsIncluded(st, i, n - 1);
    }
  }

  /**
   * The forward guard of rebelActions (first letter not "S" or not "J") always holds:
   * every Rebel with a cell in front is offered the forward step, whatever stands there.
   */
  lemma RebelForwardNeverBlocked(st: State, p: Piece)
    requires Legal(st) && p in st.rebels && IsValid(st, p.1 - 1, p.2)
    ensures Action(st.maxsTurn, p.0, p.1 - 1, p.2, p.1, p.2) in RebelMoves(st)
  {
    var i :| 0 <= i < |st.rebels| && st.rebels[i] == p;
    RebelStepsIncluded(st, i, |st.rebels|);
    assert RebelForward(st, p) == [Action(st.maxsTurn, p.0, p.1 - 1, p.2, p.1, p.2)];
  }

  /** On a consistent state every generated move can be applied by result without failing. */
  lemma MovesApplicable(st: State, a: Action)
    requires Consistent(st) && st.size >= 1 && a in AllMoves(st)
    ensures ResultPre(st, a)
  {
    CloneIsExact(st);
    MovesWellFormed(st);
    var from := (a.piece, a.oldX, a.oldY);
    if st.maxsTurn {
      if from in st.rebels {
        assert OnOwnSquare(st, from, 'R');
      } else {
        assert OnOwnSquare(st, from, 'J');
      }
    }
  }

  lemma {:induction false} StayIndicesEmpty(acts: seq<Action>, n: nat)
    requires n <= |acts| && forall a :: a in acts ==> !Stays(a)
    ensures StayIndices(acts, n) == []
  {
    if n > 0 {
      StayIndicesEmpty(acts, n - 1);
      assert acts[n - 1] in acts;
    }
  }

  // ---------------------------------------------------------------------------
  // The leaf tests and the board test.
  // ---------------------------------------------------------------------------

  /** isValid accepts exactly the cells that GameState(size) puts on the board. */
  lemma ValidIsOnInitialBoard(st: State, x: int, y: int)
    requires st.size >= 1
    ensures IsValid(st, x, y) <==> (x, y) in Initial(st.size).board
  {
    InitialLayout(st.size);
    assert IsValid(st, x, y) == IsValid(Initial(st.size), x, y);
  }

  /**
   * A cached win, the 40th move or a side with no pieces left ends the game, so a
   * state that is still in play has utility 0.
   */
  lemma TerminalCases(st: State)
    ensures st.cachedWin || st.moveCount == 40 || Won(st) ==> IsTerminal(st)
    ensures !IsTerminal(st) ==> Utility(st) == 0 && !Won(st)
  {
  }

  /**
   * Without a positive limit nothing is cut off; with limit d, depth d is still
   * searched, depth d + 1 is cut off, and a cut-off depth stays cut off deeper down.
   */
  lemma CutoffBoundary(depthLimit: int, depth: int, deeper: int)
    requires depth <= deeper
    ensures CutoffTest(depthLimit, depth) ==> CutoffTest(depthLimit, deeper)
    ensures depthLimit <= 0 ==> !CutoffTest(depthLimit, depth)
    ensures depthLimit > 0 ==> !CutoffTest(depthLimit, depthLimit) && CutoffTest(depthLimit, depthLimit + 1)
  {
  }

  /**
   * The weights of eval: the side to move is worth 20 (+10 against -10), each
   * Rebel 1, each Jedi 8 and each Sith -10.
   */
  lemma EvalWeights(st: State, p: Piece)
    ensures Eval(st.(maxsTurn := true)) == Eval(st.(maxsTurn := false)) + 20
    ensures Eval(st.(rebels := st.rebels + [p])) == Eval(st) + 1
    ensures Eval(st.(jedi := st.jedi + [p])) == Eval(st) + 8
    ensures Eval(st.(sith := st.sith + [p])) == Eval(st) - 10
  {
  }
}
