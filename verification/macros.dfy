/*
 * The two macros of src/lib.rs.
 *
 * `init!(|sq, size| body)` builds an array of `size` elements whose element
 * `sq` is `body` evaluated at `sq`.  It first fills every slot with `body` at
 * sq = 0 (Rust needs some initial value) and then overwrites every slot in a
 * loop.
 *
 * `bitloop!(|bb, sq| func)` runs `func` once for each set bit of a bitboard:
 * it takes the index of the lowest set bit (`trailing_zeros`), clears that bit
 * with `bb &= bb - 1`, and repeats until no bit is left.  The model returns
 * the sequence of squares the body is run with, in order.
 */
module BitLoopMacro {
  import opened Board

  /** The bits of squares 0..n-1 (all 64 bits when n = 64). */
  function Below(n: bv8): Bitboard
    requires n <= 64
  {
    (1 << n) - 1
  }

  /** The single bit of square `t`. */
  function Bit(t: Square): Bitboard
  {
    1 << t
  }

  /** No square below `n` is a member of `x`. */
  predicate ClearBelow(x: Bitboard, n: bv8)
    requires n <= 64
    decreases n
  {
    n == 0 || (!Has(x, n - 1) && ClearBelow(x, n - 1))
  }

  /** `ClearBelow` in quantified form. */
  lemma {:induction false} ClearBelowMeans(x: Bitboard, n: bv8)
    requires n <= 64
    ensures ClearBelow(x, n) ==> forall s: Square :: s < n ==> !Has(x, s)
    decreases n
  {
    if n > 0 {
      ClearBelowMeans(x, n - 1);
    }
  }

  /** The mask below i + 1 is the mask below i plus bit i. */
  lemma BelowGrow(i: Square)
    ensures Below(i + 1) == Below(i) | Bit(i)
  {
  }

  /** `x` misses a union exactly when it misses both parts. */
  lemma AndUnion(x: Bitboard, a: Bitboard, b: Bitboard)
    ensures x & (a | b) == 0 <==> x & a == 0 && x & b == 0
  {
    assert x & (a | b) == (x & a) | (x & b);
    OrZero(x & a, x & b);
  }

  /** A union is empty exactly when both parts are. */
  lemma OrZero(p: Bitboard, q: Bitboard)
    ensures p | q == 0 <==> p == 0 && q == 0
  {
  }

  /** `x` is clear below i + 1 exactly when it is clear below i and misses i. */
  lemma BelowSplit(x: Bitboard, i: Square)
    ensures x & Below(i + 1) == 0 <==> x & Below(i) == 0 && !Has(x, i)
  {
    BelowGrow(i);
    AndUnion(x, Below(i), Bit(i));
  }

  /** `ClearBelow` agrees with masking by `Below`. */
  lemma {:induction false} ClearBelowMask(x: Bitboard, n: bv8)
    requires n <= 64
    ensures ClearBelow(x, n) <==> x & Below(n) == 0
    decreases n
  {
    if n > 0 {
      ClearBelowMask(x, n - 1);
      BelowSplit(x, n - 1);
    }
  }

  /** A bitboard with no member below 64 is empty. */
  lemma ClearAll(x: Bitboard)
    requires ClearBelow(x, 64)
    ensures x == 0
  {
    ClearBelowMask(x, 64);
  }

  /** A bitboard with a member is not empty. */
  lemma MemberNonZero(x: Bitboard, s: Square)
    requires Has(x, s)
    ensures x != 0
  {
  }

  /** One more square: clear below i + 1 is clear below i and missing i. */
  lemma ClearBelowNext(x: Bitboard, i: bv8)
    requires i < 64
    ensures ClearBelow(x, i + 1) <==> ClearBelow(x, i) && !Has(x, i)
  {
    assert (i + 1) - 1 == i;
  }

  /** `trailing_zeros`, scanning upwards from bit `i`. */
  function TrailingZerosFrom(x: Bitboard, i: bv8): (n: bv8)
    requires i <= 64
    ensures i <= n <= 64
    decreases 64 - i
  {
    if i == 64 || Has(x, i) then i else TrailingZerosFrom(x, i + 1)
  }

  /** `n` is the lowest member of `x`, or 64 when `x` is empty. */
  predicate LowestFrom(x: Bitboard, n: bv8)
    requires n <= 64
  {
    ClearBelow(x, n) && (n < 64 ==> Has(x, n)) && (n == 64 <==> x == 0)
  }

  /** The scan ran off the top: nothing was found, so `x` is empty. */
  lemma TzEnd(x: Bitboard)
    requires ClearBelow(x, 64)
    ensures LowestFrom(x, TrailingZerosFrom(x, 64))
  {
    ClearAll(x);
  }

  /** The scan stops at the first member it meets. */
  lemma TzHit(x: Bitboard, i: bv8)
    requires i < 64 && ClearBelow(x, i) && Has(x, i)
    ensures LowestFrom(x, TrailingZerosFrom(x, i))
  {
    MemberNonZero(x, i);
  }

  /** A square that is not a member does not change the answer. */
  lemma TzMiss(x: Bitboard, i: bv8)
    requires i < 64 && !Has(x, i)
    requires LowestFrom(x, TrailingZerosFrom(x, i + 1))
    ensures LowestFrom(x, TrailingZerosFrom(x, i))
  {
  }

  /** Started where `x` is clear below, the scan finds the lowest member. */
  lemma {:induction false} TrailingZerosFromSpec(x: Bitboard, i: bv8)
    requires i <= 64 && ClearBelow(x, i)
    ensures LowestFrom(x, TrailingZerosFrom(x, i))
    decreases 64 - i
  {
    if i == 64 {
      TzEnd(x);
    } else if Has(x, i) {
      TzHit(x, i);
    } else {
      ClearBelowNext(x, i);
      TrailingZerosFromSpec(x, i + 1);
      TzMiss(x, i);
    }
  }

  /** `trailing_zeros`: the index of the lowest member of `x` (no member
      lies below it), or 64 exactly when `x` is empty. */
  function TrailingZeros(x: Bitboard): (n: bv8)
    ensures n <= 64
    ensures n == 64 <==> x == 0
    ensures n < 64 ==> Has(x, n)
    ensures ClearBelow(x, n)
  {
    TrailingZerosFromSpec(x, 0);
    TrailingZerosFrom(x, 0)
  }

  /** Subtracting 1 from `x` borrows through its clear low bits up to its
      lowest set bit `y`, so `x & (x - 1)` is `x` with `y` removed. */
  lemma ClearLowestBit(x: Bitboard, y: Bitboard)
    requires y != 0 && y & (y - 1) == 0 && x & y != 0 && x & (y - 1) == 0
    ensures x & (x - 1) == x ^ y
  {
    assert x - 1 == (x ^ y) | (y - 1);
  }

  /** The bit of a square is a single bit, and the bits below it are `Below`. */
  lemma BitIsPowerOfTwo(t: Square)
    ensures Bit(t) != 0 && Bit(t) & (Bit(t) - 1) == 0 && Bit(t) - 1 == Below(t)
  {
  }

  /** `bb &= bb - 1` (src/lib.rs) removes exactly the lowest member `t`. */
  lemma ClearLowest(x: Bitboard, t: Square)
    requires Has(x, t) && ClearBelow(x, t)
    ensures x & (x - 1) == x ^ Bit(t)
    ensures forall s: Square :: Has(x & (x - 1), s) <==> Has(x, s) && s != t
  {
    ClearBelowMask(x, t);
    BitIsPowerOfTwo(t);
    ClearLowestBit(x, Bit(t));
    forall s: Square
      ensures Has(x ^ Bit(t), s) <==> (Has(x, s) != (s == t))
    {
      XorBitAt(x, t, s);
    }
  }

  /** Toggling bit `t` changes membership of `t` only. */
  lemma XorBitAt(x: Bitboard, t: Square, s: Square)
    ensures Has(x ^ Bit(t), s) <==> (Has(x, s) != (s == t))
  {
  }

  /** The count below n + 1 adds square n to the count below n. */
  lemma CountNext(x: Bitboard, n: bv8)
    requires n < 64
    ensures CountBelow(x, n + 1) == CountBelow(x, n) + (if Has(x, n) then 1 else 0)
  {
    assert (n + 1) - 1 == n;
  }

  /** Past any square other than `t`, both counts grow alike. */
  lemma CountClearOther(x: Bitboard, t: Square, n: bv8, k: nat)
    requires n < 64 && n != t
    requires CountBelow(x ^ Bit(t), n) + k == CountBelow(x, n)
    ensures CountBelow(x ^ Bit(t), n + 1) + k == CountBelow(x, n + 1)
  {
    CountNext(x, n);
    CountNext(x ^ Bit(t), n);
    XorBitAt(x, t, n);
  }

  /** Past `t` itself, only the count of `x` grows. */
  lemma CountClearAt(x: Bitboard, t: Square)
    requires Has(x, t)
    requires CountBelow(x ^ Bit(t), t) == CountBelow(x, t)
    ensures CountBelow(x ^ Bit(t), t + 1) + 1 == CountBelow(x, t + 1)
  {
    CountNext(x, t);
    CountNext(x ^ Bit(t), t);
    XorBitAt(x, t, t);
  }

  /** Below `t`, removing `t` changes no count. */
  lemma {:induction false} CountClearBefore(x: Bitboard, t: Square, n: bv8)
    requires n <= t
    ensures CountBelow(x ^ Bit(t), n) == CountBelow(x, n)
    decreases n
  {
    if n > 0 {
      CountClearBefore(x, t, n - 1);
      CountClearOther(x, t, n - 1, 0);
    }
  }

  /** Above `t`, removing member `t` lowers the count by one. */
  lemma {:induction false} CountClear(x: Bitboard, t: Square, n: bv8)
    requires t < n <= 64 && Has(x, t)
    ensures CountBelow(x ^ Bit(t), n) + 1 == CountBelow(x, n)
    decreases n
  {
    if n - 1 == t {
      CountClearBefore(x, t, t);
      CountClearAt(x, t);
    } else {
      CountClear(x, t, n - 1);
      CountClearOther(x, t, n - 1, 1);
    }
  }

  /** The empty bitboard has no members. */
  lemma {:induction false} CountEmpty(n: bv8)
    requires n <= 64
    ensures CountBelow(0, n) == 0
    decreases n
  {
    if n > 0 {
      CountEmpty(n - 1);
    }
  }

  /** The squares of `bb`. */
  ghost function Members(bb: Bitboard): iset<Square>
  {
    iset s: Square | Has(bb, s)
  }

  /** What the loop has done so far: `visited` in increasing order, each
      below every square still in `rest`, together making up `all`. */
  ghost predicate Progress(all: iset<Square>, rest: iset<Square>, visited: seq<Square>)
  {
    && (forall s :: s in all <==> (s in visited || s in rest))
    && (forall i, j :: 0 <= i < j < |visited| ==> visited[i] < visited[j])
    && (forall i, s :: 0 <= i < |visited| && s in rest ==> visited[i] < s)
  }

  /** Visiting the lowest remaining square keeps `Progress`. */
  lemma Step(all: iset<Square>, rest: iset<Square>, visited: seq<Square>, sq: Square)
    requires Progress(all, rest, visited)
    requires sq in rest && forall s :: s in rest ==> sq <= s
    ensures Progress(all, rest - iset{sq}, visited + [sq])
  {
  }

  /** One round of the loop on the bitboard: the lowest member `sq` leaves,
      the count drops by one, and `sq` was below every member. */
  lemma ClearLowestMembers(bb: Bitboard, sq: Square)
    requires Has(bb, sq) && ClearBelow(bb, sq)
    ensures Members(bb & (bb - 1)) == Members(bb) - iset{sq}
    ensures PopCount(bb & (bb - 1)) + 1 == PopCount(bb)
    ensures sq in Members(bb) && forall s :: s in Members(bb) ==> sq <= s
  {
    ClearBelowMeans(bb, sq);
    ClearLowest(bb, sq);
    CountClear(bb, sq, 64);
  }

  /** The empty bitboard has no squares. */
  lemma NoMembers(bb: Bitboard)
    requires bb == 0
    ensures Members(bb) == iset{}
  {
  }

  /** When nothing remains, `visited` holds exactly the squares of `bb0`. */
  lemma Finished(bb0: Bitboard, visited: seq<Square>)
    requires Progress(Members(bb0), iset{}, visited)
    ensures forall s: Square :: s in visited <==> Has(bb0, s)
  {
    forall s: Square
      ensures s in visited <==> Has(bb0, s)
    {
      assert s in Members(bb0) <==> Has(bb0, s);
    }
  }

  /** `bitloop!`: the body runs once for every member of `bb0` and no other
      square, in increasing order of square, `PopCount(bb0)` times in all.
      `visited` records the `sq` of each run (the source casts it to `u16`). */
  method BitLoop(bb0: Bitboard) returns (visited: seq<Square>)
    ensures forall s: Square :: s in visited <==> Has(bb0, s)
    ensures forall i, j :: 0 <= i < j < |visited| ==> visited[i] < visited[j]
    ensures |visited| == PopCount(bb0)
  {
    var bb := bb0;
    visited := [];
    while bb > 0
      invariant Progress(Members(bb0), Members(bb), visited)
      invariant |visited| + PopCount(bb) == PopCount(bb0)
      decreases PopCount(bb)
    {
      var sq: Square := TrailingZeros(bb);
      ClearLowestMembers(bb, sq);
      Step(Members(bb0), Members(bb), visited, sq);
      bb := bb & (bb - 1);
      visited := visited + [sq];
    }
    NoMembers(bb);
    Finished(bb0, visited);
    CountEmpty(64);
  }
}

module InitMacro {
  /** `init!`: element `sq` of the result is `body(sq)`, for every
      `sq < size`; no placeholder element survives. */
  method Init<T>(size: nat, body: nat -> T) returns (res: seq<T>)
    ensures |res| == size
    ensures forall sq :: 0 <= sq < size ==> res[sq] == body(sq)
  {
    var sq := 0;
    var first := body(sq);
    res := seq(size, _ => first);
    while sq < size
      invariant 0 <= sq <= size
      invariant |res| == size
      invariant forall k :: 0 <= k < sq ==> res[k] == body(k)
    {
      res := res[sq := body(sq)];
      sq := sq + 1;
    }
  }
}
