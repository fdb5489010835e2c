/*
 * Vocabulary shared by the other modules: squares and bitboards.
 *
 * Squares are numbered rank-major from a1 = 0 to h8 = 63, so a square's file
 * is its low three bits and its rank the next three.  A bitboard is a 64-bit
 * mask whose bit i stands for square i.
 */
module Board {

  /** A square index.  The engine passes squares around as `usize`/`u16`
      values below 64; eight bits are enough to hold every one of them. */
  type Square = s: bv8 | s < 64

  /** A set of squares, one bit per square. */
  type Bitboard = bv64

  /** Square `s` is a member of bitboard `bb`. */
  predicate Has(bb: Bitboard, s: Square)
  {
    bb & (1 << s) != 0
  }

  /** The number of members of `bb` below square `n`. */
  function CountBelow(bb: Bitboard, n: bv8): nat
    requires n <= 64
    decreases n
  {
    if n == 0 then 0
    else CountBelow(bb, n - 1) + (if Has(bb, n - 1) then 1 else 0)
  }

  /** The number of squares in `bb` (Rust's `count_ones`). */
  function PopCount(bb: Bitboard): nat
  {
    CountBelow(bb, 64)
  }

  /** The file of a square, 0 (a) to 7 (h): its low three bits. */
  function FileOf(s: Square): bv8
  {
    s & 7
  }

  /** The rank of a square, 0 (rank 1) to 7 (rank 8): its next three bits. */
  function RankOf(s: Square): bv8
  {
    s >> 3
  }

  /** Mirror a square top-to-bottom (a1 <-> a8): flips the three rank bits. */
  function Flip(s: Square): Square
  {
    s ^ 56
  }
}
