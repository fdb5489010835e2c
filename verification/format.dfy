/*
 * The game-record container of src/format.rs: a start position, its castling
 * descriptor, and the stack of per-move search records pushed during a game.
 *
 * `Position`, `Castling` and `Move` are types whose code is not part of this
 * model; they appear as type parameters.  The conversion `Into<Move>` that
 * `SearchData::new` applies is passed in as a function.
 */
module Format {

  datatype Option<T> = None | Some(value: T)

  /** An `f32` score, carried as its 32-bit pattern: the record only stores
      it and never computes with it. */
  type Score = bv32

  /** A `u32` visit count. */
  type U32 = x: nat | x < 0x1_0000_0000

  /** `SearchData`: the move played, its score, and optionally the visit
      count of each root move. */
  datatype SearchData<M> = SearchData(
    bestMove: M,
    score: Score,
    visitDistribution: Option<seq<(M, U32)>>)

  /** `MontyFormat`: a start position, the castling descriptor, and the
      search records of the moves played from it, oldest first. */
  datatype MontyFormat<P, C, M> = MontyFormat(
    startpos: P,
    castling: C,
    moves: seq<SearchData<M>>)

  // ---------------------------------------------------------------------------
  // SearchData::new
  // ---------------------------------------------------------------------------

  /** The element-wise `(mov.into(), visits)` of `SearchData::new`: same
      length, same order, every visit count kept, every move converted. */
  function ConvertVisits<T, M>(into: T -> M, dist: seq<(T, U32)>): (r: seq<(M, U32)>)
    ensures |r| == |dist|
    ensures forall i :: 0 <= i < |r| ==> r[i].0 == into(dist[i].0) && r[i].1 == dist[i].1
  {
    if dist == [] then []
    else ConvertVisits(into, dist[..|dist| - 1]) + [(into(dist[|dist| - 1].0), dist[|dist| - 1].1)]
  }

  /** `SearchData::new`: the best move is converted, the score is kept, and
      the distribution, when present, is converted element-wise (absent stays
      absent). */
  function NewSearchData<T, M>(into: T -> M, bestMove: T, score: Score, dist: Option<seq<(T, U32)>>)
    : (r: SearchData<M>)
    ensures r.bestMove == into(bestMove)
    ensures r.score == score
    ensures r.visitDistribution.Some? <==> dist.Some?
    ensures dist.Some? ==> |r.visitDistribution.value| == |dist.value|
    ensures dist.Some? ==> forall i :: 0 <= i < |dist.value| ==>
      r.visitDistribution.value[i] == (into(dist.value[i].0), dist.value[i].1)
  {
    SearchData(
      into(bestMove),
      score,
      match dist
      case None => None
      case Some(v) => Some(ConvertVisits(into, v)))
  }

  /** The visit counts of a distribution, in order. */
  function Visits<M>(dist: seq<(M, U32)>): seq<U32>
  {
    seq(|dist|, i requires 0 <= i < |dist| => dist[i].1)
  }

  /** Converting the moves leaves the visit counts untouched. */
  lemma ConvertKeepsVisits<T, M>(into: T -> M, dist: seq<(T, U32)>)
    ensures Visits(ConvertVisits(into, dist)) == Visits(dist)
  {
  }

  /** With the identity conversion, `SearchData::new` stores its arguments
      as given. */
  lemma NewSearchDataIdentity<M>(bestMove: M, score: Score, dist: Option<seq<(M, U32)>>)
    ensures NewSearchData(x => x, bestMove, score, dist) == SearchData(bestMove, score, dist)
  {
    if dist.Some? {
      assert ConvertVisits(x => x, dist.value) == dist.value;
    }
  }

  /** Converting twice is converting once by the composed conversion. */
  lemma {:induction false} ConvertVisitsCompose<T, U, M>(f: T -> U, g: U -> M, dist: seq<(T, U32)>)
    ensures ConvertVisits(g, ConvertVisits(f, dist)) == ConvertVisits(x => g(f(x)), dist)
  {
    var lhs := ConvertVisits(g, ConvertVisits(f, dist));
    var rhs := ConvertVisits(x => g(f(x)), dist);
    assert |lhs| == |rhs|;
    forall i | 0 <= i < |lhs|
      ensures lhs[i] == rhs[i]
    {
    }
  }

  // ---------------------------------------------------------------------------
  // MontyFormat::new / push / pop
  // ---------------------------------------------------------------------------

  /** `MontyFormat::new`: the given start position and castling descriptor,
      with no moves recorded yet. */
  function New<P, C, M>(startpos: P, castling: C): (r: MontyFormat<P, C, M>)
    ensures r.startpos == startpos && r.castling == castling
    ensures |r.moves| == 0
  {
    MontyFormat(startpos, castling, [])
  }

  /** `push`: the record goes on the end; the earlier records, the start
      position and the castling descriptor are unchanged. */
  function Push<P, C, M>(game: MontyFormat<P, C, M>, data: SearchData<M>): (r: MontyFormat<P, C, M>)
    ensures r.startpos == game.startpos && r.castling == game.castling
    ensures |r.moves| == |game.moves| + 1
    ensures r.moves[..|game.moves|] == game.moves
    ensures r.moves[|game.moves|] == data
  {
    game.(moves := game.moves + [data])
  }

  /** `pop`: `None` on an empty record, which stays as it was; otherwise the
      last record, and the game from which pushing it back gives the input. */
  function Pop<P, C, M>(game: MontyFormat<P, C, M>): (r: (MontyFormat<P, C, M>, Option<SearchData<M>>))
    ensures r.1.None? <==> |game.moves| == 0
    ensures r.1.None? ==> r.0 == game
    ensures r.1.Some? ==> Push(r.0, r.1.value) == game
  {
    if |game.moves| == 0 then (game, None)
    else (game.(moves := game.moves[..|game.moves| - 1]), Some(game.moves[|game.moves| - 1]))
  }

  /** `pop` undoes `push`: it returns the pushed record and the game as it
      was before. */
  lemma PushThenPop<P, C, M>(game: MontyFormat<P, C, M>, data: SearchData<M>)
    ensures Pop(Push(game, data)) == (game, Some(data))
  {
    assert (game.moves + [data])[..|game.moves|] == game.moves;
  }

  /** A freshly made record has nothing to pop. */
  lemma PopNew<P, C, M>(startpos: P, castling: C)
    ensures Pop(New<P, C, M>(startpos, castling)) == (New(startpos, castling), None)
  {
  }

  /** Popping `k` times: the game that is left, and the results in the
      order they were popped. */
  function PopAll<P, C, M>(game: MontyFormat<P, C, M>, k: nat): (r: (MontyFormat<P, C, M>, seq<Option<SearchData<M>>>))
    ensures |r.1| == k
    decreases k
  {
    if k == 0 then (game, [])
    else
      var (g, d) := Pop(game);
      var (g2, ds) := PopAll(g, k - 1);
      (g2, [d] + ds)
  }

  /** Pushing a sequence of records one by one. */
  function PushAll<P, C, M>(game: MontyFormat<P, C, M>, data: seq<SearchData<M>>): (r: MontyFormat<P, C, M>)
    ensures r.moves == game.moves + data
    ensures r.startpos == game.startpos && r.castling == game.castling
    decreases |data|
  {
    if data == [] then game else PushAll(Push(game, data[0]), data[1..])
  }

  /** The results of popping every record of `data`, last record first. */
  function Popped<M>(data: seq<SearchData<M>>): (r: seq<Option<SearchData<M>>>)
    ensures |r| == |data|
    ensures forall i :: 0 <= i < |data| ==> r[i] == Some(data[|data| - 1 - i])
  {
    if data == [] then [] else [Some(data[|data| - 1])] + Popped(data[..|data| - 1])
  }

  /** The record is a stack: popping after pushing `data` returns its records
      in reverse order and restores the original game. */
  lemma {:induction false} PushAllThenPopAll<P, C, M>(game: MontyFormat<P, C, M>, data: seq<SearchData<M>>)
    ensures PopAll(PushAll(game, data), |data|) == (game, Popped(data))
    decreases |data|
  {
    if data != [] {
      var last := data[|data| - 1];
      var init := data[..|data| - 1];
      var full := PushAll(game, data);
      assert full == Push(PushAll(game, init), last) by {
        assert full.moves == (game.moves + init) + [last];
      }
      PushThenPop(PushAll(game, init), last);
      PushAllThenPopAll(game, init);
    }
  }
}
