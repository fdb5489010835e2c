/*
 * `perft` of src/chess.rs: the number of legal move sequences of a given
 * length from a position.
 *
 * Move generation and move making belong to `Position`, whose code is not
 * part of this model; they enter as the two functions of an `Engine`.  The
 * castling descriptor is threaded through unchanged, as in the source.
 */
module Perft {

  /** The two operations of `Position` that `perft` uses: the legal moves of
      a position in generation order (`map_legal_moves`) and the position
      after a move (`make` applied to a copy). */
  datatype Engine<!P, !C, !M> = Engine(legal: (P, C) -> seq<M>, make: (P, M, C) -> P)

  /** The largest value of the `u8` depth. */
  const MaxDepth: nat := 255

  // ---------------------------------------------------------------------------
  // The reference: the list of all legal lines of a given length.
  // ---------------------------------------------------------------------------

  /** `line` is a sequence of moves each legal in the position the earlier
      ones lead to. */
  predicate IsLine<P, C, M(==)>(e: Engine<P, C, M>, c: C, pos: P, line: seq<M>)
    decreases |line|
  {
    line == [] || (line[0] in e.legal(pos, c) && IsLine(e, c, e.make(pos, line[0], c), line[1..]))
  }

  /** Every line of `ls` with move `m` put in front. */
  function Extend<M>(m: M, ls: seq<seq<M>>): (r: seq<seq<M>>)
    ensures |r| == |ls|
    ensures forall i :: 0 <= i < |r| ==> r[i] == [m] + ls[i]
  {
    if ls == [] then [] else Extend(m, ls[..|ls| - 1]) + [[m] + ls[|ls| - 1]]
  }

  /** All legal lines of length `d` from `pos`, grouped by first move in
      generation order (a move generated twice contributes twice). */
  function Lines<P, C, M>(e: Engine<P, C, M>, c: C, pos: P, d: nat): seq<seq<M>>
    decreases d, 1, 0
  {
    if d == 0 then [[]] else LinesVia(e, c, pos, d, e.legal(pos, c))
  }

  /** The lines of length `d >= 1` from `pos` whose first move is taken from
      `ms`, in the order of `ms`. */
  function LinesVia<P, C, M>(e: Engine<P, C, M>, c: C, pos: P, d: nat, ms: seq<M>): seq<seq<M>>
    requires d >= 1
    decreases d, 0, |ms|
  {
    if ms == [] then []
    else
      var m := ms[|ms| - 1];
      LinesVia(e, c, pos, d, ms[..|ms| - 1]) + Extend(m, Lines(e, c, e.make(pos, m, c), d - 1))
  }

  /** The sum, over the moves of `ms`, of the number of lines of length
      `d - 1` after that move. */
  function SubTotal<P, C, M>(e: Engine<P, C, M>, c: C, pos: P, d: nat, ms: seq<M>): nat
    requires d >= 1
  {
    if ms == [] then 0
    else SubTotal(e, c, pos, d, ms[..|ms| - 1]) + |Lines(e, c, e.make(pos, ms[|ms| - 1], c), d - 1)|
  }

  // ---------------------------------------------------------------------------
  // Facts about the reference.
  // ---------------------------------------------------------------------------

  /** A line is in `Extend(m, ls)` exactly when it starts with `m` and
      continues with a line of `ls`. */
  lemma ExtendMembers<M>(m: M, ls: seq<seq<M>>, line: seq<M>)
    ensures line in Extend(m, ls) <==> |line| >= 1 && line[0] == m && line[1..] in ls
  {
    if |line| >= 1 && line[0] == m && line[1..] in ls {
      var i :| 0 <= i < |ls| && ls[i] == line[1..];
      assert Extend(m, ls)[i] == line;
    }
  }

  /** `Lines` lists exactly the legal lines of length `d`. */
  lemma {:induction false} LinesMembers<P, C, M>(e: Engine<P, C, M>, c: C, pos: P, d: nat, line: seq<M>)
    ensures line in Lines(e, c, pos, d) <==> |line| == d && IsLine(e, c, pos, line)
    decreases d, 1, 0
  {
    if d > 0 {
      LinesViaMembers(e, c, pos, d, e.legal(pos, c), line);
    }
  }

  /** `LinesVia` lists exactly the legal lines of length `d` whose first move
      is in `ms`. */
  lemma {:induction false} LinesViaMembers<P, C, M>(e: Engine<P, C, M>, c: C, pos: P, d: nat, ms: seq<M>, line: seq<M>)
    requires d >= 1
    ensures line in LinesVia(e, c, pos, d, ms) <==>
      |line| == d && line[0] in ms && IsLine(e, c, e.make(pos, line[0], c), line[1..])
    decreases d, 0, |ms|
  {
    if ms != [] {
      var m := ms[|ms| - 1];
      var init := ms[..|ms| - 1];
      var child := e.make(pos, m, c);
      LinesViaMembers(e, c, pos, d, init, line);
      ExtendMembers(m, Lines(e, c, child, d - 1), line);
      if |line| >= 1 {
        LinesMembers(e, c, child, d - 1, line[1..]);
      }
      assert ms == init + [m];
    }
  }

  /** `LinesVia` has one entry per line counted by `SubTotal`. */
  lemma {:induction false} LinesViaCount<P, C, M>(e: Engine<P, C, M>, c: C, pos: P, d: nat, ms: seq<M>)
    requires d >= 1
    ensures |LinesVia(e, c, pos, d, ms)| == SubTotal(e, c, pos, d, ms)
    decreases |ms|
  {
    if ms != [] {
      LinesViaCount(e, c, pos, d, ms[..|ms| - 1]);
    }
  }

  /** At depth `d >= 1` the number of lines is the sum, over the legal moves,
      of the number of lines of depth `d - 1` after each move. */
  lemma LinesSplit<P, C, M>(e: Engine<P, C, M>, c: C, pos: P, d: nat)
    requires d >= 1
    ensures |Lines(e, c, pos, d)| == SubTotal(e, c, pos, d, e.legal(pos, c))
  {
    LinesViaCount(e, c, pos, d, e.legal(pos, c));
  }

  /** At depth 1 each legal move is one line. */
  lemma {:induction false} LinesViaDepthOne<P, C, M>(e: Engine<P, C, M>, c: C, pos: P, ms: seq<M>)
    ensures |LinesVia(e, c, pos, 1, ms)| == |ms|
    decreases |ms|
  {
    if ms != [] {
      LinesViaDepthOne(e, c, pos, ms[..|ms| - 1]);
    }
  }

  /** The number of lines of depth 1 is the number of legal moves. */
  lemma LinesDepthOne<P, C, M>(e: Engine<P, C, M>, c: C, pos: P)
    ensures |Lines(e, c, pos, 1)| == |e.legal(pos, c)|
  {
    LinesViaDepthOne(e, c, pos, e.legal(pos, c));
  }

  /** A position without legal moves has no lines of any depth >= 1. */
  lemma NoMovesNoLines<P, C, M>(e: Engine<P, C, M>, c: C, pos: P, d: nat)
    requires d >= 1 && e.legal(pos, c) == []
    ensures Lines(e, c, pos, d) == []
  {
  }

  /** No element of `s` occurs twice. */
  predicate Distinct<T(==)>(s: seq<T>)
  {
    forall i, j :: 0 <= i < j < |s| ==> s[i] != s[j]
  }

  /** Putting the same move in front keeps distinct lines distinct. */
  lemma ExtendDistinct<M>(m: M, ls: seq<seq<M>>)
    requires Distinct(ls)
    ensures Distinct(Extend(m, ls))
  {
    var r := Extend(m, ls);
    forall i, j | 0 <= i < j < |r|
      ensures r[i] != r[j]
    {
      assert r[i][1..] == ls[i] && r[j][1..] == ls[j];
    }
  }

  /** With a generator that never repeats a move, the lines reached through
      distinct first moves are distinct. */
  lemma {:induction false} LinesViaDistinct<P, C, M>(e: Engine<P, C, M>, c: C, pos: P, d: nat, ms: seq<M>)
    requires d >= 1 && Distinct(ms)
    requires forall p :: Distinct(e.legal(p, c))
    ensures Distinct(LinesVia(e, c, pos, d, ms))
    decreases d, 0, |ms|
  {
    if ms != [] {
      var m := ms[|ms| - 1];
      var init := ms[..|ms| - 1];
      var front := LinesVia(e, c, pos, d, init);
      var back := Extend(m, Lines(e, c, e.make(pos, m, c), d - 1));
      LinesViaDistinct(e, c, pos, d, init);
      LinesDistinct(e, c, e.make(pos, m, c), d - 1);
      ExtendDistinct(m, Lines(e, c, e.make(pos, m, c), d - 1));
      var all := front + back;
      forall i, j | 0 <= i < |front| <= j < |all|
        ensures all[i] != all[j]
      {
        LinesViaMembers(e, c, pos, d, init, front[i]);
        assert all[j] == back[j - |front|];
        assert all[j][0] == m;
        assert m !in init by {
          assert ms[|ms| - 1] == m;
          forall k | 0 <= k < |init|
            ensures init[k] != m
          {
            assert init[k] == ms[k];
          }
        }
      }
    }
  }

  /** With a generator that never repeats a move, no line is listed twice:
      together with `LinesMembers`, the count is then the number of distinct
      legal lines. */
  lemma {:induction false} LinesDistinct<P, C, M>(e: Engine<P, C, M>, c: C, pos: P, d: nat)
    requires forall p :: Distinct(e.legal(p, c))
    ensures Distinct(Lines(e, c, pos, d))
    decreases d, 1, 0
  {
    if d > 0 {
      LinesViaDistinct(e, c, pos, d, e.legal(pos, c));
    }
  }

  // ---------------------------------------------------------------------------
  // `perft` itself.
  // ---------------------------------------------------------------------------

  /** `printed` pairs each move of `ms`, in order, with the number of lines
      of depth `d - 1` after it. */
  predicate Reports<P, C, M(==)>(e: Engine<P, C, M>, c: C, pos: P, d: nat, ms: seq<M>, printed: seq<(M, nat)>)
    requires d >= 1
  {
    && |printed| == |ms|
    && forall i :: 0 <= i < |ms| ==> printed[i] == (ms[i], |Lines(e, c, e.make(pos, ms[i], c), d - 1)|)
  }

  /** One more move: its lines come after those of the moves before it. */
  lemma LinesViaStep<P, C, M>(e: Engine<P, C, M>, c: C, pos: P, d: nat, ms: seq<M>, i: nat)
    requires d >= 1 && i < |ms|
    ensures |LinesVia(e, c, pos, d, ms[..i + 1])|
      == |LinesVia(e, c, pos, d, ms[..i])| + |Lines(e, c, e.make(pos, ms[i], c), d - 1)|
  {
    assert ms[..i + 1][..i] == ms[..i];
  }

  /** One more move reported with its count extends `Reports`. */
  lemma ReportsStep<P, C, M>(e: Engine<P, C, M>, c: C, pos: P, d: nat, ms: seq<M>, i: nat, printed: seq<(M, nat)>)
    requires d >= 1 && i < |ms|
    requires Reports(e, c, pos, d, ms[..i], printed)
    ensures Reports(e, c, pos, d, ms[..i + 1], printed + [(ms[i], |Lines(e, c, e.make(pos, ms[i], c), d - 1)|)])
  {
  }

  /** `perft::<REPORT>(pos, castling, depth)`.  At depth 1 it counts the legal
      moves; deeper, it makes each legal move on a copy of `pos`, counts the
      child at depth - 1 with reporting off, and, when `report` is set, emits
      the move with its count (`printed`, one pair per `println!`).
      At depth 0 the source computes `depth - 1` on a `u8` for the first legal
      move, so depth 0 is only allowed where there is none (the count is 0). */
  method Perft<P, C, M>(e: Engine<P, C, M>, pos: P, castling: C, depth: nat, report: bool)
    returns (count: nat, printed: seq<(M, nat)>)
    requires depth <= MaxDepth
    requires depth >= 1 || e.legal(pos, castling) == []
    ensures depth >= 1 ==> count == |Lines(e, castling, pos, depth)|
    ensures e.legal(pos, castling) == [] ==> count == 0
    ensures report && depth > 1 ==> Reports(e, castling, pos, depth, e.legal(pos, castling), printed)
    ensures !(report && depth > 1) ==> printed == []
    decreases depth
  {
    var moves := e.legal(pos, castling);
    printed := [];
    count := 0;
    if depth == 1 {
      var i := 0;
      while i < |moves|
        invariant 0 <= i <= |moves|
        invariant count == i
      {
        count := count + 1;
        i := i + 1;
      }
      LinesDepthOne(e, castling, pos);
      return;
    }
    var i := 0;
    while i < |moves|
      invariant 0 <= i <= |moves|
      invariant depth >= 1 ==> count == |LinesVia(e, castling, pos, depth, moves[..i])|
      invariant depth == 0 ==> count == 0 && printed == []
      invariant report && depth >= 1 ==> Reports(e, castling, pos, depth, moves[..i], printed)
      invariant !report ==> printed == []
    {
      assert depth >= 2;
      var mv := moves[i];
      var child := e.make(pos, mv, castling);
      var sub, _ := Perft(e, child, castling, depth - 1, false);
      if report {
        ReportsStep(e, castling, pos, depth, moves, i, printed);
        printed := printed + [(mv, sub)];
      }
      LinesViaStep(e, castling, pos, depth, moves, i);
      count := count + sub;
      i := i + 1;
    }
    assert moves[..i] == moves;
  }
}
