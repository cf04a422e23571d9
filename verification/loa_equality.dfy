/** Board equality and the board hash code. Equality compares the squares and
    the side to move, ignoring the move history; the hash reads the board as a
    base-3 number in Java's wrapping 32-bit `int` arithmetic. */
module LoaEquality {
  import opened Loa

  /** The i-th square in column-major order, the order `equals` walks. */
  function ColumnSquareAt(i: int): (q: Square)
    requires 0 <= i < Area
    ensures OnBoard(q)
  {
    Sq(i / M + 1, i % M + 1)
  }

  /** The squares before the i-th in column-major order hold the same pieces. */
  function SameBefore(b: Board, other: Board, i: nat): bool
    requires i <= Area
  {
    if i == 0 then true
    else
      var q := ColumnSquareAt(i - 1);
      SameBefore(b, other, i - 1) && Get(other, q.c, q.r) == Get(b, q.c, q.r)
  }

  /** `equals(obj)`: every square, then the side to move. */
  function Equals(b: Board, other: Board): bool {
    SameBefore(b, other, Area) && b.turn == other.turn
  }

  lemma {:induction false} SameBeforeMeans(b: Board, other: Board, i: nat)
    requires i <= Area
    ensures SameBefore(b, other, i) <==>
            forall j | 0 <= j < i :: Get(b, ColumnSquareAt(j).c, ColumnSquareAt(j).r)
                                  == Get(other, ColumnSquareAt(j).c, ColumnSquareAt(j).r)
  {
    if i > 0 {
      SameBeforeMeans(b, other, i - 1);
    }
  }

  /** Boards are `equals` exactly when their grids and sides to move agree;
      the move history plays no part. */
  lemma EqualsIff(b: Board, other: Board)
    ensures Equals(b, other) <==> b.grid == other.grid && b.turn == other.turn
  {
    SameBeforeMeans(b, other, Area);
    if Equals(b, other) {
      forall x, y | InBounds(x, y) ensures b.grid[y - 1][x - 1] == other.grid[y - 1][x - 1] {
        var j := (x - 1) * M + (y - 1);
        assert ColumnSquareAt(j) == Sq(x, y);
      }
      GridExt(b.grid, other.grid);
    }
  }

  // ------------------------------------------------------------ hashing

  const TwoTo32: int := 0x1_0000_0000
  const TwoTo31: int := 0x8000_0000

  /** Java's `int` arithmetic: reduce to the signed 32-bit range. */
  function Wrap32(x: int): (r: int)
    ensures -TwoTo31 <= r < TwoTo31
    ensures (r - x) % TwoTo32 == 0
  {
    (x + TwoTo31) % TwoTo32 - TwoTo31
  }

  /** Numbers congruent modulo 2^32 wrap to the same `int`. */
  lemma WrapCongruent(x: int, y: int)
    requires (x - y) % TwoTo32 == 0
    ensures Wrap32(x) == Wrap32(y)
  {
    var k := (x - y) / TwoTo32;
    assert x == y + k * TwoTo32;
    assert (x + TwoTo31) % TwoTo32 == (y + TwoTo31) % TwoTo32;
  }

  /** `hashNum(side)`: 0 for EMP, 1 for BP, 2 for WP. */
  function HashNum(p: Piece): (n: int)
    ensures 0 <= n <= 2
    ensures (n == 0 <==> p == EMP) && (n == 1 <==> p == BP)
  {
    if p == EMP then 0 else if p == BP then 1 else 2
  }

  /** The hash after the first i squares in row-major order: add the square's
      number, then multiply by 3, each step wrapping. */
  function HashBefore(b: Board, i: nat): (h: int)
    requires i <= Area
    ensures -TwoTo31 <= h < TwoTo31
  {
    if i == 0 then 0
    else
      var q := SquareAt(i - 1);
      Wrap32(Wrap32(HashBefore(b, i - 1) + HashNum(Get(b, q.c, q.r))) * 3)
  }

  /** `hashCode()`. */
  function HashCode(b: Board): (h: int)
    ensures -TwoTo31 <= h < TwoTo31
  {
    HashBefore(b, Area)
  }

  /** The same walk in unbounded integers: the first i squares read as the
      digits of a base-3 number, followed by a 0 digit. */
  function Base3Before(b: Board, i: nat): int
    requires i <= Area
  {
    if i == 0 then 0
    else
      var q := SquareAt(i - 1);
      (Base3Before(b, i - 1) + HashNum(Get(b, q.c, q.r))) * 3
  }

  lemma TripleCongruent(x: int, y: int)
    requires (x - y) % TwoTo32 == 0
    ensures (x * 3 - y * 3) % TwoTo32 == 0
  {
    var k := (x - y) / TwoTo32;
    assert x - y == k * TwoTo32;
    assert x * 3 - y * 3 == (k * 3) * TwoTo32;
  }

  /** One step of the hash: wrapping before the multiplication changes nothing
      modulo 2^32. */
  lemma HashStep(h: int, p: int, a: int)
    requires h == Wrap32(p)
    ensures Wrap32(Wrap32(h + a) * 3) == Wrap32((p + a) * 3)
  {
    WrapCongruent(h + a, p + a);
    TripleCongruent(Wrap32(p + a), p + a);
    WrapCongruent(Wrap32(p + a) * 3, (p + a) * 3);
  }

  lemma {:induction false} HashBeforeWraps(b: Board, i: nat)
    requires i <= Area
    ensures HashBefore(b, i) == Wrap32(Base3Before(b, i))
  {
    if i > 0 {
      HashBeforeWraps(b, i - 1);
      var q := SquareAt(i - 1);
      HashStep(HashBefore(b, i - 1), Base3Before(b, i - 1), HashNum(Get(b, q.c, q.r)));
    }
  }

  /** The hash code is the base-3 reading of the board truncated to 32 bits. */
  lemma HashCodeIsBase3(b: Board)
    ensures HashCode(b) == Wrap32(Base3Before(b, Area))
  {
    HashBeforeWraps(b, Area);
  }

  /** Equal boards have equal hash codes. */
  lemma EqualsSameHash(b: Board, other: Board)
    requires Equals(b, other)
    ensures HashCode(b) == HashCode(other)
  {
    EqualsIff(b, other);
    SameGridSameHash(b, other, Area);
  }

  lemma {:induction false} SameGridSameHash(b: Board, other: Board, i: nat)
    requires i <= Area && b.grid == other.grid
    ensures HashBefore(b, i) == HashBefore(other, i)
  {
    if i > 0 {
      SameGridSameHash(b, other, i - 1);
    }
  }
}
