/*
 * The constant sets of src/chess/consts.rs: side and piece indices, the
 * 4-bit move flags, the castling-right bits and the special pawn ranks, with
 * the layout facts the rest of the engine relies on.
 */
module Consts {
  import opened Board

  // ---------------------------------------------------------------------------
  // Sides and pieces (`usize` indices into the engine's bitboard arrays).
  // ---------------------------------------------------------------------------

  const White: nat := 0
  const Black: nat := 1

  const Empty: nat := 0
  const Pawn: nat := 2
  const Knight: nat := 3
  const Bishop: nat := 4
  const Rook: nat := 5
  const Queen: nat := 6
  const King: nat := 7

  /** The six piece kinds, in code order. */
  const Pieces: seq<nat> := [Pawn, Knight, Bishop, Rook, Queen, King]

  /** The piece codes are the six consecutive indices 2..7: distinct, clear
      of the side indices 0 and 1, and all below 8, so eight slots (two
      side boards, six piece boards) index one array. */
  lemma PieceLayout()
    ensures forall i :: 0 <= i < |Pieces| ==> Pieces[i] == i + 2
    ensures forall i :: 0 <= i < |Pieces| ==> Pieces[i] != White && Pieces[i] != Black && Pieces[i] < 8
    ensures forall i, j :: 0 <= i < j < |Pieces| ==> Pieces[i] != Pieces[j]
  {
  }

  // ---------------------------------------------------------------------------
  // Move flags (`u16`, the top four bits of a move).
  // ---------------------------------------------------------------------------

  type Flag = bv16

  const Quiet: Flag := 0
  const DoublePush: Flag := 1
  const KingSide: Flag := 2
  const QueenSide: Flag := 3
  const Capture: Flag := 4
  const EnPassant: Flag := 5
  const KnightPromo: Flag := 8
  const BishopPromo: Flag := 9
  const RookPromo: Flag := 10
  const QueenPromo: Flag := 11
  const KnightPromoCapture: Flag := 12
  const BishopPromoCapture: Flag := 13
  const RookPromoCapture: Flag := 14
  const QueenPromoCapture: Flag := 15

  /** Every flag, in increasing order of value. */
  const Flags: seq<Flag> := [
    Quiet, DoublePush, KingSide, QueenSide, Capture, EnPassant,
    KnightPromo, BishopPromo, RookPromo, QueenPromo,
    KnightPromoCapture, BishopPromoCapture, RookPromoCapture, QueenPromoCapture ]

  /** The moves that promote a pawn, by their names. */
  const Promotions: set<Flag> := {
    KnightPromo, BishopPromo, RookPromo, QueenPromo,
    KnightPromoCapture, BishopPromoCapture, RookPromoCapture, QueenPromoCapture }

  /** The moves that take a piece, by their names. */
  const Captures: set<Flag> := {
    Capture, EnPassant,
    KnightPromoCapture, BishopPromoCapture, RookPromoCapture, QueenPromoCapture }

  /** The fourteen flags are distinct values. */
  lemma FlagsIncreasing()
    ensures forall i, j :: 0 <= i < j < |Flags| ==> Flags[i] < Flags[j]
  {
  }

  /** The flag values are bit-coded: bit 3 marks a promotion, bit 2 a capture,
      all fit in four bits, and values 6 and 7 are unused. */
  lemma FlagLayout()
    ensures forall i :: 0 <= i < |Flags| ==> Flags[i] < 16 && Flags[i] != 6 && Flags[i] != 7
    ensures forall i :: 0 <= i < |Flags| ==> (Flags[i] in Promotions <==> Flags[i] >= 8)
    ensures forall i :: 0 <= i < |Flags| ==> (Flags[i] in Captures <==> Flags[i] & 4 != 0)
  {
  }

  /** The low two bits of a promotion name the piece: knight, bishop, rook,
      queen in that order. */
  lemma PromotionPieces()
    ensures forall f :: f in Promotions ==> (f & 3 == 0 <==> f == KnightPromo || f == KnightPromoCapture)
    ensures forall f :: f in Promotions ==> (f & 3 == 1 <==> f == BishopPromo || f == BishopPromoCapture)
    ensures forall f :: f in Promotions ==> (f & 3 == 2 <==> f == RookPromo || f == RookPromoCapture)
    ensures forall f :: f in Promotions ==> (f & 3 == 3 <==> f == QueenPromo || f == QueenPromoCapture)
  {
  }

  // ---------------------------------------------------------------------------
  // Castling rights (`u8` bits).
  // ---------------------------------------------------------------------------

  type Rights = bv8

  const WhiteQueenSide: Rights := 0x8  // 0b1000
  const WhiteKingSide: Rights := 0x4  // 0b0100
  const BlackQueenSide: Rights := 0x2  // 0b0010
  const BlackKingSide: Rights := 0x1  // 0b0001

  const AllRights: seq<Rights> := [WhiteQueenSide, WhiteKingSide, BlackQueenSide, BlackKingSide]

  predicate SingleBit(x: Rights)
  {
    x != 0 && x & (x - 1) == 0
  }

  /** The four castling rights are four distinct single bits that together
      fill the low nibble, so a set of rights is any value 0..15. */
  lemma RightsLayout()
    ensures forall i :: 0 <= i < |AllRights| ==> SingleBit(AllRights[i])
    ensures forall i, j :: 0 <= i < j < |AllRights| ==> AllRights[i] & AllRights[j] == 0
    ensures WhiteQueenSide | WhiteKingSide | BlackQueenSide | BlackKingSide == 0xF
  {
  }

  // ---------------------------------------------------------------------------
  // Special ranks, indexed by side.
  // ---------------------------------------------------------------------------

  /** The rank a pawn promotes from (`Rank::PEN`): the 7th for White, the 2nd
      for Black. */
  const Penultimate: seq<Bitboard> := [0x00FF_0000_0000_0000, 0x0000_0000_0000_FF00]

  /** The rank a pawn lands on after a double push (`Rank::DBL`): the 4th for
      White, the 5th for Black. */
  const DoublePushRank: seq<Bitboard> := [0x0000_0000_FF00_0000, 0x0000_00FF_0000_0000]

  /** Each entry is exactly one whole rank: the 7th/2nd and the 4th/5th. */
  lemma SpecialRanks()
    ensures forall s: Square :: Has(Penultimate[White], s) <==> RankOf(s) == 6
    ensures forall s: Square :: Has(Penultimate[Black], s) <==> RankOf(s) == 1
    ensures forall s: Square :: Has(DoublePushRank[White], s) <==> RankOf(s) == 3
    ensures forall s: Square :: Has(DoublePushRank[Black], s) <==> RankOf(s) == 4
  {
  }

  /** Black's entries are White's seen from the other side of the board. */
  lemma SpecialRanksMirror()
    ensures forall s: Square :: Has(Penultimate[Black], s) <==> Has(Penultimate[White], Flip(s))
    ensures forall s: Square :: Has(DoublePushRank[Black], s) <==> Has(DoublePushRank[White], Flip(s))
  {
    SpecialRanks();
  }
}
