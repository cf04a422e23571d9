/** Groups of pieces on a Lines of Action board: counting a side's pieces,
    finding its first piece, the recursive flood fill `continguousMark`, and
    the end-of-game test built on them. A side is contiguous when no set of
    squares closed under adjacency between its pieces splits them in two. */
module LoaGroups {
  import opened Wrappers
  import opened Loa

  /** The eight directions in the order `continguousMark` tries them. */
  const Dirs: seq<Direction> := [N, NE, E, SE, S, SW, W, NW]

  function DirIndex(d: Direction): (j: nat)
    ensures j < 8 && Dirs[j] == d
  {
    match d
    case N => 0
    case NE => 1
    case E => 2
    case SE => 3
    case S => 4
    case SW => 5
    case W => 6
    case NW => 7
  }

  /** The square one step from q in direction d. */
  function Nbr(q: Square, d: Direction): Square {
    Sq(q.c + DC(d), q.r + DR(d))
  }

  lemma NbrSymmetric(q: Square, d: Direction)
    ensures Nbr(Nbr(q, d), Reverse(d)) == q
  {
  }

  predicate IsPiece(b: Board, side: Piece, q: Square) {
    OnBoard(q) && Get(b, q.c, q.r) == side
  }

  const AllSquares: set<Square> := set c: int, r: int | 1 <= c <= M && 1 <= r <= M :: Sq(c, r)

  lemma AllSquaresMember(q: Square)
    ensures q in AllSquares <==> OnBoard(q)
  {
    if OnBoard(q) {
      assert q == Sq(q.c, q.r);
    }
  }

  /** The squares holding a piece of `side`. */
  function Pieces(b: Board, side: Piece): (p: set<Square>)
    ensures forall q :: q in p <==> IsPiece(b, side, q)
  {
    var p := set q | q in AllSquares && IsPiece(b, side, q);
    assert forall q | IsPiece(b, side, q) :: q in p by {
      forall q | IsPiece(b, side, q) ensures q in p {
        AllSquaresMember(q);
      }
    }
    p
  }

  // ------------------------------------------------------------ counting

  /** The pieces of `side` among the first i squares in row-major order. */
  function CountBefore(b: Board, side: Piece, i: nat): nat
    requires i <= Area
  {
    if i == 0 then 0
    else
      var q := SquareAt(i - 1);
      CountBefore(b, side, i - 1) + (if Get(b, q.c, q.r) == side then 1 else 0)
  }

  /** `numPieces(side)`: scan every square, counting those holding `side`. */
  function NumPieces(b: Board, side: Piece): nat {
    CountBefore(b, side, Area)
  }

  function PiecesBefore(b: Board, side: Piece, i: int): set<Square> {
    set q | q in Pieces(b, side) && Index(q) < i
  }

  /** Scanning one more square adds it to the pieces seen exactly when it holds one. */
  lemma PiecesBeforeStep(b: Board, side: Piece, i: int)
    requires 0 <= i < Area
    ensures SquareAt(i) !in PiecesBefore(b, side, i)
    ensures PiecesBefore(b, side, i + 1)
            == PiecesBefore(b, side, i) + (if IsPiece(b, side, SquareAt(i)) then {SquareAt(i)} else {})
  {
    var q := SquareAt(i);
    forall x | x in Pieces(b, side) && Index(x) == i ensures x == q {
      IndexInjective(x);
    }
  }

  lemma {:induction false} CountBeforeIsCard(b: Board, side: Piece, i: nat)
    requires i <= Area
    ensures CountBefore(b, side, i) == |PiecesBefore(b, side, i)|
  {
    if i == 0 {
      forall q | q in Pieces(b, side) ensures Index(q) >= 0 {
        IndexInjective(q);
      }
      assert PiecesBefore(b, side, 0) == {};
    } else {
      CountBeforeIsCard(b, side, i - 1);
      PiecesBeforeStep(b, side, i - 1);
    }
  }

  /** `numPieces` is the number of squares holding the side's pieces. */
  lemma NumPiecesIsCard(b: Board, side: Piece)
    ensures NumPieces(b, side) == |Pieces(b, side)|
  {
    CountBeforeIsCard(b, side, Area);
    assert PiecesBefore(b, side, Area) == Pieces(b, side) by {
      forall x | x in Pieces(b, side) ensures Index(x) < Area {
        IndexInjective(x);
      }
    }
  }

  /** The scan of `piecesContiguous` for the first piece of `side`, in
      row-major order, starting at square i. */
  function FirstPiece(b: Board, side: Piece, i: nat): (f: Option<Square>)
    requires i <= Area
    ensures f.Some? ==> IsPiece(b, side, f.value) && i <= Index(f.value)
    ensures f.Some? ==> forall j | i <= j < Index(f.value) :: !IsPiece(b, side, SquareAt(j))
    ensures f.None? <==> forall j | i <= j < Area :: !IsPiece(b, side, SquareAt(j))
    decreases Area - i
  {
    if i == Area then None
    else
      var q := SquareAt(i);
      if Get(b, q.c, q.r) == side then Some(q) else FirstPiece(b, side, i + 1)
  }

  /** With no first piece there is no piece at all. */
  lemma NoFirstPieceNoPieces(b: Board, side: Piece)
    requires FirstPiece(b, side, 0).None?
    ensures Pieces(b, side) == {}
  {
    forall q | q in Pieces(b, side) ensures false {
      IndexInjective(q);
    }
  }

  // ------------------------------------------------------------ marking

  /** Every piece of `side` adjacent to q is in S. */
  predicate NbrsIn(b: Board, side: Piece, q: Square, S: set<Square>) {
    forall d :: IsPiece(b, side, Nbr(q, d)) ==> Nbr(q, d) in S
  }

  lemma {:induction false} SubsetCard<T>(A: set<T>, B: set<T>)
    requires A <= B
    ensures |A| <= |B|
    decreases |B|
  {
    if A != {} {
      var x :| x in A;
      SubsetCard(A - {x}, B - {x});
    }
  }

  /** A proper subset is strictly smaller. */
  lemma {:induction false} ProperSubsetCard<T>(A: set<T>, B: set<T>)
    requires A <= B && A != B
    ensures |A| < |B|
  {
    var x :| x in B && x !in A;
    SubsetCard(A, B - {x});
  }

  /** The squares left to mark shrink when an unmarked square is marked. */
  lemma MarkShrinks(marked: set<Square>, n: Square)
    requires OnBoard(n) && n !in marked
    ensures |AllSquares - (marked + {n})| < |AllSquares - marked|
  {
    AllSquaresMember(n);
    ProperSubsetCard(AllSquares - (marked + {n}), AllSquares - marked);
  }

  lemma MarkGrows(marked: set<Square>, m1: set<Square>)
    requires marked <= m1
    ensures |AllSquares - m1| <= |AllSquares - marked|
  {
    SubsetCard(AllSquares - m1, AllSquares - marked);
  }

  /** `continguousMark(c, r, side, marked)` for q = (c, r): the number of
      pieces it marks, and the marked set afterwards. Every newly marked square
      holds a piece of `side` and has all its side-neighbours marked, and so
      has q. */
  function Mark(b: Board, side: Piece, q: Square, marked: set<Square>): (res: (nat, set<Square>))
    ensures marked <= res.1 && |res.1| == |marked| + res.0
    ensures forall x | x in res.1 - marked :: IsPiece(b, side, x) && NbrsIn(b, side, x, res.1)
    ensures NbrsIn(b, side, q, res.1)
    decreases |AllSquares - marked|, 9
  {
    var res := MarkDirs(b, side, q, 0, marked);
    assert forall d | IsPiece(b, side, Nbr(q, d)) :: Nbr(q, d) in res.1 by {
      forall d | IsPiece(b, side, Nbr(q, d)) ensures Nbr(q, d) in res.1 {
        assert Nbr(q, Dirs[DirIndex(d)]) == Nbr(q, d);
      }
    }
    res
  }

  /** The loop of `continguousMark`, from the k-th direction on. */
  function MarkDirs(b: Board, side: Piece, q: Square, k: nat, marked: set<Square>): (res: (nat, set<Square>))
    requires k <= 8
    ensures marked <= res.1 && |res.1| == |marked| + res.0
    ensures forall x | x in res.1 - marked :: IsPiece(b, side, x) && NbrsIn(b, side, x, res.1)
    ensures forall j | k <= j < 8 :: IsPiece(b, side, Nbr(q, Dirs[j])) ==> Nbr(q, Dirs[j]) in res.1
    decreases |AllSquares - marked|, 8 - k
  {
    if k == 8 then (0, marked)
    else
      var n := Nbr(q, Dirs[k]);
      if OnBoard(n) && Get(b, n.c, n.r) == side && n !in marked then
        MarkShrinks(marked, n);
        var r1 := Mark(b, side, n, marked + {n});
        MarkGrows(marked, r1.1);
        var r2 := MarkDirs(b, side, q, k + 1, r1.1);
        MarkStep(b, side, q, k, marked, n, r1, r2);
        (1 + r1.0 + r2.0, r2.1)
      else
        MarkDirs(b, side, q, k + 1, marked)
  }

  lemma NbrsInGrows(b: Board, side: Piece, x: Square, S: set<Square>, T: set<Square>)
    requires NbrsIn(b, side, x, S) && S <= T
    ensures NbrsIn(b, side, x, T)
  {
  }

  /** One marking iteration of `MarkDirs`: the contracts of the nested mark
      from n and of the remaining directions give the contract for direction k. */
  lemma MarkStep(b: Board, side: Piece, q: Square, k: nat, marked: set<Square>, n: Square,
                 r1: (nat, set<Square>), r2: (nat, set<Square>))
    requires k < 8 && n == Nbr(q, Dirs[k]) && IsPiece(b, side, n) && n !in marked
    requires marked + {n} <= r1.1 && |r1.1| == |marked + {n}| + r1.0
    requires forall x | x in r1.1 - (marked + {n}) :: IsPiece(b, side, x) && NbrsIn(b, side, x, r1.1)
    requires NbrsIn(b, side, n, r1.1)
    requires r1.1 <= r2.1 && |r2.1| == |r1.1| + r2.0
    requires forall x | x in r2.1 - r1.1 :: IsPiece(b, side, x) && NbrsIn(b, side, x, r2.1)
    requires forall j | k + 1 <= j < 8 :: IsPiece(b, side, Nbr(q, Dirs[j])) ==> Nbr(q, Dirs[j]) in r2.1
    ensures marked <= r2.1 && |r2.1| == |marked| + (1 + r1.0 + r2.0)
    ensures forall x | x in r2.1 - marked :: IsPiece(b, side, x) && NbrsIn(b, side, x, r2.1)
    ensures forall j | k <= j < 8 :: IsPiece(b, side, Nbr(q, Dirs[j])) ==> Nbr(q, Dirs[j]) in r2.1
  {
    forall x | x in r2.1 - marked ensures IsPiece(b, side, x) && NbrsIn(b, side, x, r2.1) {
      if x in r1.1 {
        if x != n {
          assert x in r1.1 - (marked + {n});
        }
        NbrsInGrows(b, side, x, r1.1, r2.1);
      }
    }
  }

  /** S contains every side-neighbour of each of its squares. */
  predicate Closed(b: Board, side: Piece, S: set<Square>) {
    forall x, d | x in S :: IsPiece(b, side, Nbr(x, d)) ==> Nbr(x, d) in S
  }

  /** Marking from a square of a closed set never leaves the set. */
  lemma {:induction false} MarkStaysInClosed(b: Board, side: Piece, q: Square, marked: set<Square>, S: set<Square>)
    requires Closed(b, side, S) && q in S
    ensures Mark(b, side, q, marked).1 - marked <= S
    decreases |AllSquares - marked|, 9
  {
    MarkDirsStaysInClosed(b, side, q, 0, marked, S);
  }

  lemma {:induction false} MarkDirsStaysInClosed(b: Board, side: Piece, q: Square, k: nat, marked: set<Square>, S: set<Square>)
    requires k <= 8 && Closed(b, side, S) && q in S
    ensures MarkDirs(b, side, q, k, marked).1 - marked <= S
    decreases |AllSquares - marked|, 8 - k
  {
    if k < 8 {
      var n := Nbr(q, Dirs[k]);
      if OnBoard(n) && Get(b, n.c, n.r) == side && n !in marked {
        MarkShrinks(marked, n);
        assert IsPiece(b, side, Nbr(q, Dirs[k]));
        MarkStaysInClosed(b, side, n, marked + {n}, S);
        var r1 := Mark(b, side, n, marked + {n});
        MarkGrows(marked, r1.1);
        MarkDirsStaysInClosed(b, side, q, k + 1, r1.1, S);
      } else {
        MarkDirsStaysInClosed(b, side, q, k + 1, marked, S);
      }
    }
  }

  // ------------------------------------------------------------ contiguity

  /** `piecesContiguous(side)`: mark from the first piece and compare the
      number marked with the number of pieces; no pieces counts as contiguous. */
  function PiecesContiguous(b: Board, side: Piece): bool {
    match FirstPiece(b, side, 0)
    case None => true
    case Some(f) =>
      var res := Mark(b, side, f, {f});
      NumPieces(b, side) == res.0 + 1
  }

  /** The pieces of `side` form one group: every closed set either misses
      them all or holds them all. */
  ghost predicate Contiguous(b: Board, side: Piece) {
    forall S | Closed(b, side, S) :: S * Pieces(b, side) == {} || Pieces(b, side) <= S
  }

  /** The pieces outside a closed set are closed too, since adjacency is symmetric. */
  lemma ComplementClosed(b: Board, side: Piece, S: set<Square>)
    requires Closed(b, side, S)
    ensures Closed(b, side, Pieces(b, side) - S)
  {
    var P := Pieces(b, side);
    forall x, d | x in P - S && IsPiece(b, side, Nbr(x, d)) ensures Nbr(x, d) in P - S {
      NbrSymmetric(x, d);
    }
  }

  /** Marking from a piece marks a closed set of pieces. */
  lemma MarkedClosed(b: Board, side: Piece, f: Square)
    requires IsPiece(b, side, f)
    ensures var m := Mark(b, side, f, {f}).1;
            m <= Pieces(b, side) && f in m && Closed(b, side, m)
  {
    var m := Mark(b, side, f, {f}).1;
    forall x, d | x in m && IsPiece(b, side, Nbr(x, d)) ensures Nbr(x, d) in m {
      if x != f {
        assert x in m - {f};
      }
    }
  }

  /** When everything marked from f is all of the pieces, they form one group. */
  lemma AllMarkedContiguous(b: Board, side: Piece, f: Square)
    requires IsPiece(b, side, f) && Mark(b, side, f, {f}).1 == Pieces(b, side)
    ensures Contiguous(b, side)
  {
    var P := Pieces(b, side);
    forall S | Closed(b, side, S) && S * P != {} ensures P <= S {
      var p :| p in S * P;
      if f in S {
        MarkStaysInClosed(b, side, f, {f}, S);
      } else {
        ComplementClosed(b, side, S);
        MarkStaysInClosed(b, side, f, {f}, P - S);
        assert false;
      }
    }
  }

  /** `piecesContiguous` decides whether the side's pieces form one group. */
  lemma PiecesContiguousIff(b: Board, side: Piece)
    ensures PiecesContiguous(b, side) <==> Contiguous(b, side)
  {
    var P := Pieces(b, side);
    NumPiecesIsCard(b, side);
    match FirstPiece(b, side, 0)
    case None =>
      NoFirstPieceNoPieces(b, side);
    case Some(f) =>
      var res := Mark(b, side, f, {f});
      var m := res.1;
      MarkedClosed(b, side, f);
      assert |m| == res.0 + 1;
      if Contiguous(b, side) {
        assert f in m * P;
        assert P <= m;
        assert m == P;
      }
      if PiecesContiguous(b, side) {
        if m != P {
          ProperSubsetCard(m, P);
          assert false;
        }
        AllMarkedContiguous(b, side, f);
      }
  }

  /** `gameOver()`: either side's pieces are contiguous. */
  function GameOver(b: Board): (r: bool)
    ensures r <==> Contiguous(b, BP) || Contiguous(b, WP)
  {
    PiecesContiguousIff(b, BP);
    PiecesContiguousIff(b, WP);
    PiecesContiguous(b, BP) || PiecesContiguous(b, WP)
  }
}
