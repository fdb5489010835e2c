/*
 * The squares strictly between two squares (`in_between` and the
 * `IN_BETWEEN` table in src/chess/consts.rs).
 *
 * `in_between` is branch-free.  `btwn` is the run of bits from the lower
 * square up to, not including, the higher one.  `line` is the pattern of the
 * rank, file, diagonal or anti-diagonal the two squares share, laid out as if
 * the lower square were a1; it is zero if they share none.  Multiplying `line`
 * by the lowest bit of `btwn` moves that pattern up to the lower square, and
 * masking with `btwn` cuts it off before the higher one.
 *
 * The model keeps the source's three stages as three functions (`Btwn`,
 * `Line`, `Spread`) so that proofs can reason about each stage on its own.
 * `Between` is the geometric reference: "s lies strictly between a and b on a
 * rank, file or diagonal they share".  `InBetweenSpec` proves that the bit
 * trick computes exactly that set.
 */
module Geometry {
  import opened Board

  const M1: Bitboard := 0xFFFF_FFFF_FFFF_FFFF
  /** a2..a7: the file pattern. */
  const A2A7: Bitboard := 0x0001_0101_0101_0100
  /** b2..g7: the diagonal pattern. */
  const B2G7: Bitboard := 0x0040_2010_0804_0200
  /** h1..b7 (h1 excluded by the shift that follows): the anti-diagonal pattern. */
  const H1B7: Bitboard := 0x0002_0408_1020_4080
  /** b1..g1: the rank pattern, which the source builds as `2 * 63`. */
  const B1G1: Bitboard := 0x0000_0000_0000_007E

  // ---------------------------------------------------------------------------
  // The bit trick, stage by stage.  Squares are zero-extended to 64 bits, the
  // width of the source's `usize` and `u64` arithmetic; every `wrapping_*`
  // operation is the corresponding wrapping bv64 operator.
  // ---------------------------------------------------------------------------

  /** `btwn`: the bits from min(sq1, sq2) up to, not including, max(sq1, sq2).
      It is empty exactly when the two squares are the same. */
  function Btwn(sq1: Square, sq2: Square): (r: Bitboard)
    ensures r == 0 <==> sq1 == sq2
  {
    (M1 << sq1) ^ (M1 << sq2)
  }

  /** The file difference `file`, wrapping: file(sq2) - file(sq1). */
  function FileDelta(sq1: Square, sq2: Square): Bitboard
  {
    ((sq2 as bv64) & 7) + -((sq1 as bv64) & 7)
  }

  /** The source's `rank`: ((sq2 | 7) - sq1) >> 3, wrapping. */
  function RankDelta(sq1: Square, sq2: Square): Bitboard
  {
    (((sq2 as bv64) | 7) - (sq1 as bv64)) >> 3
  }

  /** A2A7 if `file` is 0 modulo 8, else 0. */
  function FileTerm(file: Bitboard): Bitboard
  {
    ((file & 7) - 1) & A2A7
  }

  /** 2 * 63 = B1G1 if `rank` is 0 modulo 8, else 0. */
  function RankTerm(rank: Bitboard): Bitboard
  {
    2 * (((rank & 7) - 1) >> 58)
  }

  /** B2G7 if rank - file is 0 modulo 16, else 0. */
  function DiagonalTerm(file: Bitboard, rank: Bitboard): Bitboard
  {
    (((rank - file) & 15) - 1) & B2G7
  }

  /** H1B7 if rank + file is 0 modulo 16, else 0. */
  function AntiDiagonalTerm(file: Bitboard, rank: Bitboard): Bitboard
  {
    (((rank + file) & 15) - 1) & H1B7
  }

  /** `line`: the sum of the four terms.  The source adds them with `+=`,
      which must not overflow; `LineTermsDisjoint` shows it never carries. */
  function Line(sq1: Square, sq2: Square): (r: Bitboard)
    ensures r == FileTerm(FileDelta(sq1, sq2)) | RankTerm(RankDelta(sq1, sq2))
      | DiagonalTerm(FileDelta(sq1, sq2), RankDelta(sq1, sq2)) | AntiDiagonalTerm(FileDelta(sq1, sq2), RankDelta(sq1, sq2))
  {
    var file := FileDelta(sq1, sq2);
    var rank := RankDelta(sq1, sq2);
    LineTermsDisjoint(file, rank);
    FileTerm(file) + RankTerm(rank) + DiagonalTerm(file, rank) + AntiDiagonalTerm(file, rank)
  }

  /** Move `line` up by the lowest set bit of `btwn`, then keep only `btwn`:
      nothing outside `btwn` survives. */
  function Spread(line: Bitboard, btwn: Bitboard): (r: Bitboard)
    ensures r & btwn == r
  {
    (line * (btwn & -btwn)) & btwn
  }

  /** `in_between(sq1, sq2)`: never a square outside `btwn`, and nothing at
      all for a square and itself.  Its full meaning is `InBetweenSpec`. */
  function InBetween(sq1: Square, sq2: Square): (r: Bitboard)
    ensures sq1 == sq2 ==> r == 0
  {
    Spread(Line(sq1, sq2), Btwn(sq1, sq2))
  }

  // ---------------------------------------------------------------------------
  // The geometric reference.
  // ---------------------------------------------------------------------------

  predicate SameRank(a: Square, b: Square) { RankOf(a) == RankOf(b) }
  predicate SameFile(a: Square, b: Square) { FileOf(a) == FileOf(b) }
  /** Same a1-h8 direction diagonal: file - rank agrees. */
  predicate SameDiagonal(a: Square, b: Square) { FileOf(a) + RankOf(b) == FileOf(b) + RankOf(a) }
  /** Same h1-a8 direction diagonal: file + rank agrees. */
  predicate SameAntiDiagonal(a: Square, b: Square) { FileOf(a) + RankOf(a) == FileOf(b) + RankOf(b) }

  /** Two distinct squares a queen could travel between on an empty board. */
  predicate Aligned(a: Square, b: Square)
  {
    a != b && (SameRank(a, b) || SameFile(a, b) || SameDiagonal(a, b) || SameAntiDiagonal(a, b))
  }

  /** `s` lies strictly between the distinct squares `a` and `b` on a rank,
      file or diagonal through both.  Written with file and rank coordinates
      (`FileOf`, `RankOf`). */
  predicate Between(a: Square, b: Square, s: Square)
  {
    var fa, ra, fb, rb, fs, rs := FileOf(a), RankOf(a), FileOf(b), RankOf(b), FileOf(s), RankOf(s);
    a != b &&
    ( (ra == rb && rs == ra && ((fa < fs < fb) || (fb < fs < fa)))
    || (fa == fb && fs == fa && ((ra < rs < rb) || (rb < rs < ra)))
    || (fa + rb == fb + ra && fs + ra == fa + rs && ((fa < fs < fb) || (fb < fs < fa)))
    || (fa + ra == fb + rb && fs + rs == fa + ra && ((fa < fs < fb) || (fb < fs < fa))))
  }

  // ---------------------------------------------------------------------------
  // Facts about each stage.
  // ---------------------------------------------------------------------------

  /** The four terms of `line` occupy disjoint bits, whatever `file` and
      `rank` are, so the three `+=` of the source never carry, let alone
      overflow: their sum is their union. */
  lemma LineTermsDisjoint(file: Bitboard, rank: Bitboard)
    ensures FileTerm(file) & RankTerm(rank) == 0
    ensures (FileTerm(file) | RankTerm(rank)) & DiagonalTerm(file, rank) == 0
    ensures (FileTerm(file) | RankTerm(rank) | DiagonalTerm(file, rank)) & AntiDiagonalTerm(file, rank) == 0
    ensures FileTerm(file) + RankTerm(rank) + DiagonalTerm(file, rank) + AntiDiagonalTerm(file, rank)
         == FileTerm(file) | RankTerm(rank) | DiagonalTerm(file, rank) | AntiDiagonalTerm(file, rank)
  {
  }

  /** The pattern `line` picks for two distinct squares. */
  function LinePattern(a: Square, b: Square): Bitboard
  {
    if SameRank(a, b) then B1G1
    else if SameFile(a, b) then A2A7
    else if SameDiagonal(a, b) then B2G7
    else if SameAntiDiagonal(a, b) then H1B7
    else 0
  }

  /** Each term of `line` tests one kind of line through the two squares. */
  lemma FileTermValue(a: Square, b: Square)
    ensures FileTerm(FileDelta(a, b)) == if SameFile(a, b) then A2A7 else 0
  {
  }

  lemma RankTermValue(a: Square, b: Square)
    ensures RankTerm(RankDelta(a, b)) == if SameRank(a, b) then B1G1 else 0
  {
  }

  lemma DiagonalTermValue(a: Square, b: Square)
    ensures DiagonalTerm(FileDelta(a, b), RankDelta(a, b)) == if SameDiagonal(a, b) then B2G7 else 0
  {
  }

  lemma AntiDiagonalTermValue(a: Square, b: Square)
    ensures AntiDiagonalTerm(FileDelta(a, b), RankDelta(a, b)) == if SameAntiDiagonal(a, b) then H1B7 else 0
  {
  }

  /** For distinct squares at most one test succeeds, so `line` is the one
      pattern of the line they share, or 0. */
  lemma LineValue(a: Square, b: Square)
    requires a != b
    ensures Line(a, b) == LinePattern(a, b)
  {
    FileTermValue(a, b);
    RankTermValue(a, b);
    DiagonalTermValue(a, b);
    AntiDiagonalTermValue(a, b);
  }

  lemma LineSymmetric(a: Square, b: Square)
    ensures Line(a, b) == Line(b, a)
  {
    if a != b {
      LineValue(a, b);
      LineValue(b, a);
    }
  }

  lemma BtwnSymmetric(a: Square, b: Square)
    ensures Btwn(a, b) == Btwn(b, a)
  {
  }

  /** The lowest bit of `btwn` is the lower square. */
  lemma BtwnLowestBit(a: Square, b: Square)
    requires a < b
    ensures Btwn(a, b) & -Btwn(a, b) == 1 << a
  {
  }

  /** `line` shifted up to square `m` and cut to `btwn`. */
  function Place(line: Bitboard, m: Square, btwn: Bitboard): Bitboard
  {
    (line << m) & btwn
  }

  /** Multiplying one of the patterns by a single bit 2^m is a shift by m. */
  lemma SpreadIsShift(line: Bitboard, btwn: Bitboard, m: Square)
    requires line == 0 || line == B1G1 || line == A2A7 || line == B2G7 || line == H1B7
    requires btwn & -btwn == 1 << m
    ensures Spread(line, btwn) == Place(line, m, btwn)
  {
    if line == 0 {
    } else if line == B1G1 {
    } else if line == A2A7 {
    } else if line == B2G7 {
    } else {
    }
  }

  // One lemma per possible value of `line`: with the constant fixed, each
  // multiplication is a small bit-vector problem, where one lemma over all
  // five values is far more expensive for the solver.

  lemma ShiftFormB1G1(a: Square, b: Square)
    requires a < b && Line(a, b) == B1G1
    ensures InBetween(a, b) == Place(B1G1, a, Btwn(a, b))
  {
    BtwnLowestBit(a, b);
    SpreadIsShift(B1G1, Btwn(a, b), a);
  }

  lemma ShiftFormA2A7(a: Square, b: Square)
    requires a < b && Line(a, b) == A2A7
    ensures InBetween(a, b) == Place(A2A7, a, Btwn(a, b))
  {
    BtwnLowestBit(a, b);
    SpreadIsShift(A2A7, Btwn(a, b), a);
  }

  lemma ShiftFormB2G7(a: Square, b: Square)
    requires a < b && Line(a, b) == B2G7
    ensures InBetween(a, b) == Place(B2G7, a, Btwn(a, b))
  {
    BtwnLowestBit(a, b);
    SpreadIsShift(B2G7, Btwn(a, b), a);
  }

  lemma ShiftFormH1B7(a: Square, b: Square)
    requires a < b && Line(a, b) == H1B7
    ensures InBetween(a, b) == Place(H1B7, a, Btwn(a, b))
  {
    BtwnLowestBit(a, b);
    SpreadIsShift(H1B7, Btwn(a, b), a);
  }

  lemma ShiftFormZero(a: Square, b: Square)
    requires a < b && Line(a, b) == 0
    ensures InBetween(a, b) == Place(0, a, Btwn(a, b))
  {
    BtwnLowestBit(a, b);
    SpreadIsShift(0, Btwn(a, b), a);
  }

  /** For a < b, `in_between` is `line` shifted up to `a` and cut to `btwn`. */
  lemma InBetweenAsShift(a: Square, b: Square)
    requires a < b
    ensures InBetween(a, b) == Place(LinePattern(a, b), a, Btwn(a, b))
  {
    LineValue(a, b);
    if SameRank(a, b) {
      ShiftFormB1G1(a, b);
    } else if SameFile(a, b) {
      ShiftFormA2A7(a, b);
    } else if SameDiagonal(a, b) {
      ShiftFormB2G7(a, b);
    } else if SameAntiDiagonal(a, b) {
      ShiftFormH1B7(a, b);
    } else {
      ShiftFormZero(a, b);
    }
  }

  // One lemma per kind of line: the shifted pattern is the reference set.

  lemma RankCase(a: Square, b: Square)
    requires a < b && SameRank(a, b)
    ensures forall s: Square :: Has(Place(B1G1, a, Btwn(a, b)), s) <==> Between(a, b, s)
  {
  }

  lemma FileCase(a: Square, b: Square)
    requires a < b && SameFile(a, b)
    ensures forall s: Square :: Has(Place(A2A7, a, Btwn(a, b)), s) <==> Between(a, b, s)
  {
  }

  lemma DiagonalCase(a: Square, b: Square)
    requires a < b && SameDiagonal(a, b) && !SameRank(a, b)
    ensures forall s: Square :: Has(Place(B2G7, a, Btwn(a, b)), s) <==> Between(a, b, s)
  {
  }

  lemma AntiDiagonalCase(a: Square, b: Square)
    requires a < b && SameAntiDiagonal(a, b) && !SameRank(a, b)
    ensures forall s: Square :: Has(Place(H1B7, a, Btwn(a, b)), s) <==> Between(a, b, s)
  {
  }

  lemma UnalignedCase(a: Square, b: Square)
    requires !Aligned(a, b)
    ensures forall s: Square :: !Between(a, b, s)
  {
  }

  lemma BetweenSymmetric(a: Square, b: Square)
    ensures forall s: Square :: Between(a, b, s) <==> Between(b, a, s)
  {
  }

  // ---------------------------------------------------------------------------
  // What `in_between` computes.
  // ---------------------------------------------------------------------------

  /** `in_between` is symmetric in its two squares. */
  lemma InBetweenSymmetric(a: Square, b: Square)
    ensures InBetween(a, b) == InBetween(b, a)
  {
    LineSymmetric(a, b);
    BtwnSymmetric(a, b);
  }

  /** A square has nothing strictly between itself and itself. */
  lemma InBetweenSelf(a: Square)
    ensures InBetween(a, a) == 0
  {
    assert Btwn(a, a) == 0;
  }

  // The main theorem for a < b, one kind of line at a time.

  /** a < b on one rank: the result is the rank squares strictly between. */
  lemma InBetweenRank(a: Square, b: Square)
    requires a < b && SameRank(a, b)
    ensures forall s: Square :: Has(InBetween(a, b), s) <==> Between(a, b, s)
  {
    InBetweenAsShift(a, b);
    assert InBetween(a, b) == Place(B1G1, a, Btwn(a, b));
    RankCase(a, b);
  }

  /** a and b on one file: the result is the file squares strictly between. */
  lemma InBetweenFile(a: Square, b: Square)
    requires a < b && SameFile(a, b) && !SameRank(a, b)
    ensures forall s: Square :: Has(InBetween(a, b), s) <==> Between(a, b, s)
  {
    InBetweenAsShift(a, b);
    assert InBetween(a, b) == Place(A2A7, a, Btwn(a, b));
    FileCase(a, b);
  }

  /** a and b on one a1-h8 diagonal: the diagonal squares strictly between. */
  lemma InBetweenDiagonal(a: Square, b: Square)
    requires a < b && SameDiagonal(a, b) && !SameRank(a, b) && !SameFile(a, b)
    ensures forall s: Square :: Has(InBetween(a, b), s) <==> Between(a, b, s)
  {
    InBetweenAsShift(a, b);
    assert InBetween(a, b) == Place(B2G7, a, Btwn(a, b));
    DiagonalCase(a, b);
  }

  /** a and b on one h1-a8 diagonal: the anti-diagonal squares strictly between. */
  lemma InBetweenAntiDiagonal(a: Square, b: Square)
    requires a < b && SameAntiDiagonal(a, b) && !SameRank(a, b) && !SameFile(a, b) && !SameDiagonal(a, b)
    ensures forall s: Square :: Has(InBetween(a, b), s) <==> Between(a, b, s)
  {
    InBetweenAsShift(a, b);
    assert InBetween(a, b) == Place(H1B7, a, Btwn(a, b));
    AntiDiagonalCase(a, b);
  }

  /** a < b on no common line: the result is empty. */
  lemma InBetweenNone(a: Square, b: Square)
    requires a < b && !Aligned(a, b)
    ensures forall s: Square :: Has(InBetween(a, b), s) <==> Between(a, b, s)
  {
    InBetweenUnalignedOrdered(a, b);
    UnalignedCase(a, b);
  }

  /** The main theorem for a < b, by the kind of line the squares share. */
  lemma InBetweenSpecOrdered(a: Square, b: Square)
    requires a < b
    ensures forall s: Square :: Has(InBetween(a, b), s) <==> Between(a, b, s)
  {
    if SameRank(a, b) {
      InBetweenRank(a, b);
    } else if SameFile(a, b) {
      InBetweenFile(a, b);
    } else if SameDiagonal(a, b) {
      InBetweenDiagonal(a, b);
    } else if SameAntiDiagonal(a, b) {
      InBetweenAntiDiagonal(a, b);
    } else {
      InBetweenNone(a, b);
    }
  }

  /** The main theorem: bit s of `in_between(a, b)` is set exactly when s lies
      strictly between a and b on a rank, file or diagonal through both. */
  lemma InBetweenSpec(a: Square, b: Square)
    ensures forall s: Square :: Has(InBetween(a, b), s) <==> Between(a, b, s)
  {
    if a == b {
      InBetweenSelf(a);
    } else if a < b {
      InBetweenSpecOrdered(a, b);
    } else {
      InBetweenSpecOrdered(b, a);
      InBetweenSymmetric(a, b);
      BetweenSymmetric(a, b);
    }
  }

  lemma PlaceZero(m: Square, btwn: Bitboard)
    ensures Place(0, m, btwn) == 0
  {
  }

  lemma InBetweenUnalignedOrdered(a: Square, b: Square)
    requires a < b && !Aligned(a, b)
    ensures InBetween(a, b) == 0
  {
    InBetweenAsShift(a, b);
    assert LinePattern(a, b) == 0;
    PlaceZero(a, Btwn(a, b));
  }

  /** Squares that share no line (or are equal) have an empty in-between set. */
  lemma InBetweenUnaligned(a: Square, b: Square)
    requires !Aligned(a, b)
    ensures InBetween(a, b) == 0
  {
    if a == b {
      InBetweenSelf(a);
    } else if a < b {
      InBetweenUnalignedOrdered(a, b);
    } else {
      InBetweenUnalignedOrdered(b, a);
      InBetweenSymmetric(a, b);
    }
  }

  /** A square strictly between two others has an index strictly between theirs. */
  lemma BetweenWithin(a: Square, b: Square)
    ensures forall s: Square :: Between(a, b, s) ==> (a < s < b || b < s < a)
  {
  }

  /** Every square of `in_between(a, b)` has an index strictly between the two,
      so neither end square is ever included. */
  lemma InBetweenWithin(a: Square, b: Square)
    ensures forall s: Square :: Has(InBetween(a, b), s) ==> (a < s < b || b < s < a)
  {
    InBetweenSpec(a, b);
    BetweenWithin(a, b);
  }
}
