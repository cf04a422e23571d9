/** The Lines of Action board: an 8x8 grid of pieces, the side to move and the
    history of unretracted moves, with the line-of-action counting, blocking and
    legality rules. Squares are addressed as (column, row), both 1..8, and the
    grid is stored row-major: `grid[r-1][c-1]`. */
module Loa {
  import opened Wrappers

  datatype Piece = EMP | BP | WP

  /** `Piece.opposite()`: black and white swap, and EMP is its own opposite.
      (Piece is not part of this model; this is the assumed behaviour.) */
  function Opposite(p: Piece): Piece {
    match p
    case BP => WP
    case WP => BP
    case EMP => EMP
  }

  /** The eight compass directions, in the order of `Direction.values()` after
      NOWHERE, which the model leaves out. */
  datatype Direction = N | NE | E | SE | S | SW | W | NW

  /** Column step of a direction (`dir.dc`). */
  function DC(d: Direction): int {
    match d
    case NE | E | SE => 1
    case SW | W | NW => -1
    case N | S => 0
  }

  /** Row step of a direction (`dir.dr`). */
  function DR(d: Direction): int {
    match d
    case N | NE | NW => 1
    case SE | S | SW => -1
    case E | W => 0
  }

  /** The direction pointing the other way. */
  function Reverse(d: Direction): (e: Direction)
    ensures DC(e) == -DC(d) && DR(e) == -DR(d)
  {
    match d
    case N => S
    case NE => SW
    case E => W
    case SE => NW
    case S => N
    case SW => NE
    case W => E
    case NW => SE
  }

  /** `k` steps of size `step` (a step is -1, 0 or 1), without multiplication. */
  function Off(k: int, step: int): int {
    if step == 1 then k else if step == -1 then -k else 0
  }

  const M: int := 8

  predicate InBounds(c: int, r: int) {
    1 <= c <= M && 1 <= r <= M
  }

  predicate IsGrid(g: seq<seq<Piece>>) {
    |g| == M && forall i | 0 <= i < M :: |g[i]| == M
  }

  type Grid = g: seq<seq<Piece>> | IsGrid(g) witness seq(8, _ => seq(8, _ => EMP))

  type Coord = x: int | 1 <= x <= M witness 1

  /** A move of `moved` from (c0, r0) to (c1, r1), recording the piece it
      replaces. Move is not part of this model: both squares are assumed to be
      on the board, as `Move.create` produces them. */
  datatype Move = Move(c0: Coord, r0: Coord, c1: Coord, r1: Coord, moved: Piece, replaced: Piece)

  datatype Board = Board(grid: Grid, turn: Piece, moves: seq<Move>)

  /** `get(c, r)`: the contents of column c, row r. */
  function Get(b: Board, c: int, r: int): Piece
    requires InBounds(c, r)
  {
    b.grid[r - 1][c - 1]
  }

  /** A grid equal to `g` except that (c, r) holds `v`. */
  function SetSquare(g: Grid, c: int, r: int, v: Piece): (h: Grid)
    requires InBounds(c, r)
    ensures h[r - 1][c - 1] == v
    ensures forall x, y | InBounds(x, y) && (x, y) != (c, r) :: h[y - 1][x - 1] == g[y - 1][x - 1]
  {
    g[r - 1 := g[r - 1][c - 1 := v]]
  }

  /** `set(c, r, v, next)`: put v on (c, r) and, when `next` is given, make it
      the side to move. */
  function Set(b: Board, c: int, r: int, v: Piece, next: Option<Piece>): (b': Board)
    requires InBounds(c, r)
    ensures Get(b', c, r) == v
    ensures forall x, y | InBounds(x, y) && (x, y) != (c, r) :: Get(b', x, y) == Get(b, x, y)
    ensures b'.turn == (if next.Some? then next.value else b.turn) && b'.moves == b.moves
  {
    Board(SetSquare(b.grid, c, r, v), if next.Some? then next.value else b.turn, b.moves)
  }

  /** Two grids agreeing on every square are equal. */
  lemma GridExt(g: Grid, h: Grid)
    requires forall x, y | InBounds(x, y) :: g[y - 1][x - 1] == h[y - 1][x - 1]
    ensures g == h
  {
    forall i | 0 <= i < M ensures g[i] == h[i] {
      forall j | 0 <= j < M ensures g[i][j] == h[i][j] {
        assert InBounds(j + 1, i + 1);
      }
    }
  }

  // ---------------------------------------------------------------- squares

  /** A square as a value: column and row. */
  datatype Square = Sq(c: int, r: int)

  predicate OnBoard(q: Square) {
    InBounds(q.c, q.r)
  }

  /** The number of squares on the board. */
  const Area: int := M * M

  /** The i-th square in row-major order (the order in which the source walks
      `_boardPieces`: row 1 first, column 1 first within a row). */
  function SquareAt(i: int): (q: Square)
    requires 0 <= i < Area
    ensures OnBoard(q) && Index(q) == i
  {
    Sq(i % M + 1, i / M + 1)
  }

  /** The position of an on-board square in row-major order. */
  function Index(q: Square): int {
    (q.r - 1) * M + (q.c - 1)
  }

  lemma IndexInjective(q: Square)
    requires OnBoard(q)
    ensures 0 <= Index(q) < Area && SquareAt(Index(q)) == q
  {
  }


  /** The square designator `cr`, c in a..h and r in 1..8 (`^[a-h][1-8]$`). */
  predicate IsDesignator(sq: string) {
    |sq| == 2 && 'a' <= sq[0] <= 'h' && '1' <= sq[1] <= '8'
  }

  /** `col(sq)`: the column 1..8 of a designator; anything else throws (None). */
  function Col(sq: string): (r: Option<int>)
    ensures r.Some? <==> IsDesignator(sq)
    ensures r.Some? ==> 1 <= r.value <= M
  {
    if IsDesignator(sq) then Some(sq[0] as int - 'a' as int + 1) else None
  }

  /** `row(sq)`: the row 1..8 of a designator; anything else throws (None). */
  function Row(sq: string): (r: Option<int>)
    ensures r.Some? <==> IsDesignator(sq)
    ensures r.Some? ==> 1 <= r.value <= M
  {
    if IsDesignator(sq) then Some(sq[1] as int - '0' as int) else None
  }

  /** The printed name of a square, the inverse of Col and Row. */
  function Designator(c: int, r: int): string
    requires InBounds(c, r)
  {
    [('a' as int + c - 1) as char, ('0' as int + r) as char]
  }

  lemma DesignatorRoundTrip(c: int, r: int)
    requires InBounds(c, r)
    ensures Col(Designator(c, r)) == Some(c) && Row(Designator(c, r)) == Some(r)
  {
  }

  lemma DesignatorOnto(sq: string)
    requires IsDesignator(sq)
    ensures Designator(Col(sq).value, Row(sq).value) == sq
  {
  }

  // ------------------------------------------------------------ set-up

  /** The standard starting position, bottom row first. */
  const InitialPieces: seq<seq<Piece>> := [
    [EMP, BP,  BP,  BP,  BP,  BP,  BP,  EMP],
    [WP,  EMP, EMP, EMP, EMP, EMP, EMP, WP ],
    [WP,  EMP, EMP, EMP, EMP, EMP, EMP, WP ],
    [WP,  EMP, EMP, EMP, EMP, EMP, EMP, WP ],
    [WP,  EMP, EMP, EMP, EMP, EMP, EMP, WP ],
    [WP,  EMP, EMP, EMP, EMP, EMP, EMP, WP ],
    [WP,  EMP, EMP, EMP, EMP, EMP, EMP, WP ],
    [EMP, BP,  BP,  BP,  BP,  BP,  BP,  EMP]
  ]

  /** `initialize(contents, side)`: copy the 8x8 contents square by square,
      clear the history and put `side` on move. */
  method Initialize(contents: seq<seq<Piece>>, side: Piece) returns (b: Board)
    requires IsGrid(contents)
    ensures forall c, r | InBounds(c, r) :: Get(b, c, r) == contents[r - 1][c - 1]
    ensures b.turn == side && b.moves == []
  {
    var g: Grid := seq(8, _ => seq(8, _ => EMP));
    var r := 1;
    while r <= M
      invariant 1 <= r <= M + 1
      invariant forall x, y | InBounds(x, y) && y < r :: g[y - 1][x - 1] == contents[y - 1][x - 1]
    {
      var c := 1;
      while c <= M
        invariant 1 <= c <= M + 1
        invariant forall x, y | InBounds(x, y) && (y < r || (y == r && x < c)) ::
                    g[y - 1][x - 1] == contents[y - 1][x - 1]
      {
        g := SetSquare(g, c, r, contents[r - 1][c - 1]);
        c := c + 1;
      }
      r := r + 1;
    }
    b := Board(g, side, []);
  }

  /** The board built by Initialize is the contents themselves. */
  lemma InitializeIsContents(contents: Grid, b: Board)
    requires forall c, r | InBounds(c, r) :: Get(b, c, r) == contents[r - 1][c - 1]
    ensures b.grid == contents
  {
    GridExt(b.grid, contents);
  }

  /** `clear()`: the standard position with black to move. */
  method Clear() returns (b: Board)
    ensures b.grid == InitialPieces && b.turn == BP && b.moves == []
  {
    b := Initialize(InitialPieces, BP);
    InitializeIsContents(InitialPieces, b);
  }

  // ------------------------------------------------------------ moves

  /** `movesMade()`. */
  function MovesMade(b: Board): nat {
    |b.moves|
  }

  /** `makeMove(m)`: the legality assertion is not enforced (Java assertions
      are off by default), so any move is applied. */
  function MakeMove(b: Board, m: Move): (b': Board)
    ensures Get(b', m.c0, m.r0) == EMP
    ensures (m.c1, m.r1) != (m.c0, m.r0) ==> Get(b', m.c1, m.r1) == m.moved
    ensures forall x, y | InBounds(x, y) && (x, y) != (m.c0, m.r0) && (x, y) != (m.c1, m.r1) ::
              Get(b', x, y) == Get(b, x, y)
    ensures b'.turn == Opposite(b.turn)
    ensures b'.moves == b.moves + [m] && MovesMade(b') == MovesMade(b) + 1
  {
    var b1 := if m.replaced != EMP then Set(b, m.c1, m.r1, EMP, None) else b;
    var b2 := Set(b1, m.c1, m.r1, m.moved, None);
    var b3 := Set(b2, m.c0, m.r0, EMP, None);
    Board(b3.grid, Opposite(b.turn), b.moves + [m])
  }

  /** `retract()`: undo the last move; with no moves the source throws (None).
      The last move's target gets back the piece it replaced, then its source
      gets back the moved piece. */
  function Retract(b: Board): (r: Option<Board>)
    ensures r.None? <==> MovesMade(b) == 0
    ensures r.Some? ==> MovesMade(r.value) == MovesMade(b) - 1 && r.value.turn == Opposite(b.turn)
    ensures r.Some? ==> r.value.moves == b.moves[..|b.moves| - 1]
    ensures r.Some? ==> var m := b.moves[|b.moves| - 1];
              Get(r.value, m.c0, m.r0) == m.moved &&
              ((m.c1, m.r1) != (m.c0, m.r0) ==> Get(r.value, m.c1, m.r1) == m.replaced) &&
              forall x, y | InBounds(x, y) && (x, y) != (m.c0, m.r0) && (x, y) != (m.c1, m.r1) ::
                Get(r.value, x, y) == Get(b, x, y)
  {
    if |b.moves| == 0 then None
    else
      var m := b.moves[|b.moves| - 1];
      var b1 := Set(b, m.c1, m.r1, m.replaced, None);
      var b2 := Set(b1, m.c0, m.r0, m.moved, None);
      Some(Board(b2.grid, Opposite(b.turn), b.moves[..|b.moves| - 1]))
  }

  lemma OppositeInvolutive(p: Piece)
    ensures Opposite(Opposite(p)) == p
  {
  }

  /** Retracting right after a move restores every square, the turn and the
      history, provided the move recorded the pieces actually on its squares. */
  lemma RetractUndoesMakeMove(b: Board, m: Move)
    requires Get(b, m.c0, m.r0) == m.moved && Get(b, m.c1, m.r1) == m.replaced
    ensures Retract(MakeMove(b, m)) == Some(b)
  {
    var a := MakeMove(b, m);
    assert a.moves[..|a.moves| - 1] == b.moves;
    var r := Retract(a).value;
    forall x, y | InBounds(x, y) ensures r.grid[y - 1][x - 1] == b.grid[y - 1][x - 1] {
      assert Get(r, x, y) == Get(b, x, y);
    }
    GridExt(r.grid, b.grid);
    OppositeInvolutive(b.turn);
  }

  // ------------------------------------------------------------ lines of action

  /** `direction(m)`: the compass direction from the source towards the target;
      a move to its own square counts as S. */
  function MoveDirection(m: Move): Direction {
    if m.c0 == m.c1 then (if m.r0 < m.r1 then N else S)
    else if m.r0 == m.r1 then (if m.c0 < m.c1 then E else W)
    else if m.r0 < m.r1 then (if m.c0 < m.c1 then NE else NW)
    else (if m.c0 < m.c1 then SE else SW)
  }

  function Sign(x: int): int {
    if x > 0 then 1 else if x < 0 then -1 else 0
  }

  /** For a move that goes somewhere, its direction's steps are the signs of
      the displacement. */
  lemma MoveDirectionSigns(m: Move)
    requires (m.c0, m.r0) != (m.c1, m.r1)
    ensures DC(MoveDirection(m)) == Sign(m.c1 - m.c0) && DR(MoveDirection(m)) == Sign(m.r1 - m.r0)
  {
  }

  /** `Move.length()`: the number of squares moved (Move is not part of this
      model; the Chebyshev distance is the assumed definition). */
  function MoveLength(m: Move): nat {
    var dx := if m.c1 >= m.c0 then m.c1 - m.c0 else m.c0 - m.c1;
    var dy := if m.r1 >= m.r0 then m.r1 - m.r0 else m.r0 - m.r1;
    if dx >= dy then dx else dy
  }

  /** How many more squares from (c, r) lie on the board in direction d. */
  function RayMeasure(c: int, r: int, d: Direction): nat {
    if !InBounds(c, r) then 0
    else if DC(d) == 1 then M + 1 - c
    else if DC(d) == -1 then c
    else if DR(d) == 1 then M + 1 - r
    else r
  }

  /** One of the two loops of `pieceCountAlong`: the occupied squares from
      (c, r) onwards in direction d, stopping at the edge. */
  function CountRay(b: Board, c: int, r: int, d: Direction): nat
    decreases RayMeasure(c, r, d)
  {
    if InBounds(c, r) then
      (if Get(b, c, r) != EMP then 1 else 0) + CountRay(b, c + DC(d), r + DR(d), d)
    else 0
  }

  /** `pieceCountAlong(c, r, dir)`: the square itself plus the occupied squares
      on both sides of it along the line. */
  function PieceCountAlong(b: Board, c: int, r: int, d: Direction): nat {
    1 + CountRay(b, c + DC(d), r + DR(d), d) + CountRay(b, c - DC(d), r - DR(d), Reverse(d))
  }

  /** Whether the square k steps from (c, r) in direction d is on the board and occupied. */
  function OccupiedAt(b: Board, c: int, r: int, d: Direction, k: int): nat {
    var x := c + Off(k, DC(d));
    var y := r + Off(k, DR(d));
    if InBounds(x, y) && Get(b, x, y) != EMP then 1 else 0
  }

  /** Reference count: occupied squares at distances k..7 from (c, r) along d. */
  function OccupiedFrom(b: Board, c: int, r: int, d: Direction, k: nat): nat
    decreases M - k
  {
    if k >= M then 0 else OccupiedAt(b, c, r, d, k) + OccupiedFrom(b, c, r, d, k + 1)
  }

  /** The number of pieces on the whole line through (c, r): the square itself
      and every occupied square at distance 1..7 in either direction. */
  function LineCount(b: Board, c: int, r: int, d: Direction): nat {
    1 + OccupiedFrom(b, c, r, d, 1) + OccupiedFrom(b, c, r, Reverse(d), 1)
  }

  lemma OffStep(k: int, d: Direction)
    ensures Off(k + 1, DC(d)) == Off(k, DC(d)) + DC(d)
    ensures Off(k + 1, DR(d)) == Off(k, DR(d)) + DR(d)
  {
  }

  /** Once a ray from an on-board square has left the board it stays off it,
      and it is always off at distance 8. */
  lemma OffBoardStaysOff(c: int, r: int, d: Direction, k: int, j: int)
    requires InBounds(c, r) && 1 <= k <= j
    requires !InBounds(c + Off(k, DC(d)), r + Off(k, DR(d)))
    ensures !InBounds(c + Off(j, DC(d)), r + Off(j, DR(d)))
  {
  }

  lemma {:induction false} OccupiedFromOff(b: Board, c: int, r: int, d: Direction, k: nat)
    requires InBounds(c, r) && 1 <= k
    requires !InBounds(c + Off(k, DC(d)), r + Off(k, DR(d)))
    ensures OccupiedFrom(b, c, r, d, k) == 0
    decreases M - k
  {
    if k < M {
      OffBoardStaysOff(c, r, d, k, k + 1);
      OccupiedFromOff(b, c, r, d, k + 1);
    }
  }

  /** No ray from an on-board square reaches distance 8. */
  lemma FarOff(c: int, r: int, d: Direction, k: int)
    requires InBounds(c, r) && k >= M
    ensures !InBounds(c + Off(k, DC(d)), r + Off(k, DR(d)))
  {
  }

  lemma CountRayStep(b: Board, c: int, r: int, d: Direction, k: nat)
    requires k < M && InBounds(c + Off(k, DC(d)), r + Off(k, DR(d)))
    ensures CountRay(b, c + Off(k, DC(d)), r + Off(k, DR(d)), d)
            == OccupiedAt(b, c, r, d, k) + CountRay(b, c + Off(k + 1, DC(d)), r + Off(k + 1, DR(d)), d)
    ensures OccupiedFrom(b, c, r, d, k) == OccupiedAt(b, c, r, d, k) + OccupiedFrom(b, c, r, d, k + 1)
  {
    OffStep(k, d);
  }

  lemma {:induction false} CountRayFrom(b: Board, c: int, r: int, d: Direction, k: nat)
    requires InBounds(c, r) && 1 <= k
    ensures CountRay(b, c + Off(k, DC(d)), r + Off(k, DR(d)), d) == OccupiedFrom(b, c, r, d, k)
    decreases M - k
  {
    var x := c + Off(k, DC(d));
    var y := r + Off(k, DR(d));
    if !InBounds(x, y) {
      OccupiedFromOff(b, c, r, d, k);
    } else {
      if k >= M {
        FarOff(c, r, d, k);
        assert false;
      }
      CountRayFrom(b, c, r, d, k + 1);
      CountRayFromStep(b, c, r, d, k);
    }
  }

  /** The inductive step of `CountRayFrom`, given the count one square on. */
  lemma CountRayFromStep(b: Board, c: int, r: int, d: Direction, k: nat)
    requires k < M && InBounds(c + Off(k, DC(d)), r + Off(k, DR(d)))
    requires CountRay(b, c + Off(k + 1, DC(d)), r + Off(k + 1, DR(d)), d) == OccupiedFrom(b, c, r, d, k + 1)
    ensures CountRay(b, c + Off(k, DC(d)), r + Off(k, DR(d)), d) == OccupiedFrom(b, c, r, d, k)
  {
    CountRayStep(b, c, r, d, k);
  }

  /** `pieceCountAlong` counts exactly the pieces on the line of action. */
  lemma PieceCountAlongIsLineCount(b: Board, c: int, r: int, d: Direction)
    requires InBounds(c, r)
    ensures PieceCountAlong(b, c, r, d) == LineCount(b, c, r, d)
  {
    OffOne(d);
    OffOne(Reverse(d));
    CountRayFrom(b, c, r, d, 1);
    CountRayFrom(b, c, r, Reverse(d), 1);
  }

  /** The first square of a ray is one step away. */
  lemma OffOne(d: Direction)
    ensures Off(1, DC(d)) == DC(d) && Off(1, DR(d)) == DR(d)
  {
  }

  /** The loop of `blocked`: walk `total - 1` squares from (c, r) looking for
      an opposing piece, then look at the next square for a friendly one. A
      step off the board makes the source's array access throw (None). */
  function BlockWalk(b: Board, d: Direction, c: int, r: int, total: int, moved: Piece): Option<bool>
    decreases if total > 1 then total else 0
  {
    if InBounds(c, r) && total > 1 then
      var c', r' := c + DC(d), r + DR(d);
      if !InBounds(c', r') then None
      else if Get(b, c', r') == Opposite(moved) then Some(true)
      else BlockWalk(b, d, c', r', total - 1, moved)
    else
      var c', r' := c + DC(d), r + DR(d);
      if !InBounds(c', r') then None else Some(Get(b, c', r') == moved)
  }

  /** `blocked(m)`. */
  function Blocked(b: Board, m: Move): Option<bool> {
    BlockWalk(b, MoveDirection(m), m.c0, m.r0, MoveLength(m), m.moved)
  }

  /** The move runs along one of the eight lines and goes somewhere. */
  predicate LineMove(m: Move) {
    var dx := m.c1 - m.c0;
    var dy := m.r1 - m.r0;
    (dx, dy) != (0, 0) && (dx == 0 || dy == 0 || dx == dy || dx == -dy)
  }

  /** A line move's target is its length times its direction away from the source. */
  lemma LineMoveShape(m: Move)
    requires LineMove(m)
    ensures MoveLength(m) >= 1
    ensures m.c1 == m.c0 + Off(MoveLength(m), DC(MoveDirection(m)))
    ensures m.r1 == m.r0 + Off(MoveLength(m), DR(MoveDirection(m)))
  {
  }

  /** The square k steps along the move's line holds an opposing piece. */
  predicate OpposingAt(b: Board, m: Move, k: int) {
    var d := MoveDirection(m);
    var x, y := m.c0 + Off(k, DC(d)), m.r0 + Off(k, DR(d));
    InBounds(x, y) && Get(b, x, y) == Opposite(m.moved)
  }

  /** The LOA blocking rule: an opposing piece strictly between the squares,
      or a friendly piece on the target. */
  predicate BlockedRule(b: Board, m: Move) {
    (exists k | 1 <= k < MoveLength(m) :: OpposingAt(b, m, k)) || Get(b, m.c1, m.r1) == m.moved
  }

  /** Every square of a line move, from source to target, is on the board. */
  lemma LineOnBoard(m: Move, k: int)
    requires LineMove(m) && 0 <= k <= MoveLength(m)
    ensures InBounds(m.c0 + Off(k, DC(MoveDirection(m))), m.r0 + Off(k, DR(MoveDirection(m))))
  {
    LineMoveShape(m);
  }

  /** One step of the blocking walk along a line move. */
  lemma BlockWalkStep(b: Board, m: Move, k: nat)
    requires LineMove(m) && k < MoveLength(m)
    ensures var d := MoveDirection(m);
            var x, y := m.c0 + Off(k, DC(d)), m.r0 + Off(k, DR(d));
            var x', y' := m.c0 + Off(k + 1, DC(d)), m.r0 + Off(k + 1, DR(d));
            BlockWalk(b, d, x, y, MoveLength(m) - k, m.moved)
            == if MoveLength(m) - k > 1 then
                 (if OpposingAt(b, m, k + 1) then Some(true)
                  else BlockWalk(b, d, x', y', MoveLength(m) - (k + 1), m.moved))
               else Some(Get(b, x', y') == m.moved)
  {
    LineOnBoard(m, k);
    LineOnBoard(m, k + 1);
    OffStep(k, MoveDirection(m));
  }

  lemma {:induction false} BlockWalkFrom(b: Board, m: Move, k: nat)
    requires LineMove(m) && k < MoveLength(m)
    ensures var d := MoveDirection(m);
            BlockWalk(b, d, m.c0 + Off(k, DC(d)), m.r0 + Off(k, DR(d)), MoveLength(m) - k, m.moved)
            == Some((exists j | k < j < MoveLength(m) :: OpposingAt(b, m, j)) || Get(b, m.c1, m.r1) == m.moved)
    decreases MoveLength(m) - k
  {
    var len := MoveLength(m);
    BlockWalkStep(b, m, k);
    if len - k > 1 {
      BlockWalkFrom(b, m, k + 1);
      if OpposingAt(b, m, k + 1) {
        assert k < k + 1 < len;
      } else {
        assert (exists j | k < j < len :: OpposingAt(b, m, j)) <==> (exists j | k + 1 < j < len :: OpposingAt(b, m, j));
      }
    } else {
      LineMoveShape(m);
    }
  }

  /** `blocked` implements the blocking rule for every line move. */
  lemma BlockedIsRule(b: Board, m: Move)
    requires LineMove(m)
    ensures Blocked(b, m) == Some(BlockedRule(b, m))
  {
    LineMoveShape(m);
    BlockWalkFrom(b, m, 0);
  }

  /** `pieceCountAlong(m)`. */
  function MovePieceCount(b: Board, m: Move): nat {
    PieceCountAlong(b, m.c0, m.r0, MoveDirection(m))
  }

  /** `isLegal(m)`: null and blocked moves are illegal; otherwise the
      displacement must be the direction scaled by the line's piece count.
      A `blocked` that throws makes isLegal throw (None). */
  function IsLegal(b: Board, m: Option<Move>): Option<bool> {
    if m.None? then Some(false)
    else
      var mv := m.value;
      match Blocked(b, mv)
      case None => None
      case Some(blocked) =>
        if blocked then Some(false)
        else
          var num := MovePieceCount(b, mv);
          var d := MoveDirection(mv);
          Some(mv.c1 - mv.c0 == Off(num, DC(d)) && mv.r1 - mv.r0 == Off(num, DR(d)))
  }

  /** The LOA movement rule: a line move, not blocked, whose length is the
      number of pieces on its line of action. */
  predicate LegalRule(b: Board, m: Move) {
    LineMove(m) && !BlockedRule(b, m) && MoveLength(m) == LineCount(b, m.c0, m.r0, MoveDirection(m))
  }

  /** `isLegal` decides the LOA movement rule for every line move and rejects
      (or throws on) every other move. */
  lemma IsLegalIsRule(b: Board, m: Move)
    ensures LineMove(m) ==> IsLegal(b, Some(m)) == Some(LegalRule(b, m))
    ensures !LineMove(m) ==> IsLegal(b, Some(m)) != Some(true)
  {
    var d := MoveDirection(m);
    PieceCountAlongIsLineCount(b, m.c0, m.r0, d);
    if LineMove(m) {
      BlockedIsRule(b, m);
      LineMoveShape(m);
    }
  }

  lemma IsLegalNull(b: Board)
    ensures IsLegal(b, None) == Some(false)
  {
  }
}
