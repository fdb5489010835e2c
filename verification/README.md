# montyformat core, modelled in Dafny

montyformat is a chess rules library and a game-record format for self-play
data. This project models four of its pieces and proves what they compute:

- **Square geometry** (`src/chess/consts.rs`):
  - the branch-free bit trick `in_between`, proved to return exactly the
    squares strictly between two squares that share a rank, file, diagonal or
    anti-diagonal, and the empty set otherwise;
  - the 64 x 64 table `IN_BETWEEN` filled from it, and the table
    `LINE_THROUGH` filled by the same loops from `line_through`;
  - the constant sets `Side`, `Piece`, `Flag`, `Right` and `Rank`, with the
    layout facts the engine relies on.
- **`perft`** (`src/chess.rs`): the leaf count over a move generator and a
  `make` function. Both are parameters, because `Position` is not part of
  this model. The count is proved equal to the length of an independent
  reference: the list of all legal move sequences of the given length, with
  a sequence listed as often as the generator repeats its moves. When the
  generator never repeats a move, no sequence is listed twice, so the count
  is the number of distinct legal sequences.
- **The game record** (`src/format.rs`): `SearchData::new` and the
  `MontyFormat` stack with `new`/`push`/`pop`.
- **The macros `init!` and `bitloop!`** (`src/lib.rs`).

Files:

| file | module(s) | content |
|---|---|---|
| `board.dfy` | `Board` | squares (`bv8` values below 64), bitboards (`bv64`), membership, population count |
| `geometry.dfy` | `Geometry` | `in_between` stage by stage, the geometric reference `Between`, the proof that they agree |
| `tables.dfy` | `Tables` | the nested-loop table fill, `IN_BETWEEN`, `LINE_THROUGH` |
| `consts.dfy` | `Consts` | side, piece, flag, castling-right and special-rank constants |
| `macros.dfy` | `BitLoopMacro`, `InitMacro` | `bitloop!` with `trailing_zeros`; `init!` |
| `perft.dfy` | `Perft` | `perft`, with the reference list of legal lines |
| `format.dfy` | `Format` | `SearchData`, `MontyFormat` |

The `wrapping_*` arithmetic of `in_between` is modelled as wrapping 64-bit
bit-vector arithmetic, with squares zero-extended to 64 bits. The source's
`2 * …` and the three `line +=` are checked operations, not wrapping ones.
The model writes them with the wrapping operators too, and this agrees with
the source: the doubled value is at most 126, and `Geometry.LineTermsDisjoint`
shows that the four terms of `line` share no bit, so no addition carries,
let alone overflows.

## Model

| member | source | states |
|---|---|---|
| Geometry.Btwn | src/chess/consts.rs:87 | The stage `btwn`, as written. It is empty exactly when the two squares are equal. |
| Geometry.Line | src/chess/consts.rs:88-93 | The stage `line`, as written. Its sum of four terms equals their bitwise union, so the checked `+=` never overflows. |
| Geometry.Spread | src/chess/consts.rs:94-95 | The last stage, `line.wrapping_mul(btwn & btwn.wrapping_neg()) & btwn`, as written. Its result lies within `btwn`. |
| Geometry.InBetween | src/chess/consts.rs:82-96 | `in_between`: the three stages composed. A square and itself give 0. Its full meaning is stated by `Geometry.InBetweenSpec`. |
| Geometry.LineTermsDisjoint | src/chess/consts.rs:90-93 | The four terms added into `line` occupy disjoint bits for every `file` and `rank`. So the three `+=` never carry, never overflow, and their sum is the union of the terms. |
| Geometry.FileTermValue | src/chess/consts.rs:88-90 | The file term is the a2..a7 pattern exactly when the two squares share a file, and 0 otherwise. |
| Geometry.RankTermValue | src/chess/consts.rs:89-91 | The rank term is the b1..g1 pattern (2 * 63) exactly when the two squares share a rank, and 0 otherwise. |
| Geometry.DiagonalTermValue | src/chess/consts.rs:88-92 | The diagonal term is the b2..g7 pattern exactly when the two squares share an a1-h8 diagonal, and 0 otherwise. |
| Geometry.AntiDiagonalTermValue | src/chess/consts.rs:88-93 | The anti-diagonal term is the h1..b7 pattern exactly when the two squares share an h1-a8 diagonal, and 0 otherwise. |
| Geometry.LineValue | src/chess/consts.rs:88-93 | For distinct squares, `line` is the pattern of the one line they share, or 0 when they share none. |
| Geometry.LineSymmetric | src/chess/consts.rs:88-93 | `line` does not depend on the order of the two squares. |
| Geometry.BtwnSymmetric | src/chess/consts.rs:87 | `btwn` does not depend on the order of the two squares. |
| Geometry.BtwnLowestBit | src/chess/consts.rs:87-94 | For a < b, `btwn & btwn.wrapping_neg()` is the single bit of the lower square a. |
| Geometry.SpreadIsShift | src/chess/consts.rs:94-95 | Multiplying any of the five possible `line` values by the single bit 2^m and masking with `btwn` shifts the pattern up by m. |
| Geometry.InBetweenAsShift | src/chess/consts.rs:82-96 | For a < b, `in_between(a, b)` is the shared line's pattern moved up to a and cut off at b. |
| Geometry.InBetweenSpec | src/chess/consts.rs:82-96 | Square s is in `in_between(a, b)` if and only if s lies strictly between a and b on a rank, file or diagonal through both. This holds for every pair, including a == b. |
| Geometry.InBetweenSymmetric | src/chess/consts.rs:82-96 | `in_between(a, b) == in_between(b, a)` for all squares. |
| Geometry.InBetweenSelf | src/chess/consts.rs:87-95 | `in_between(s, s) == 0`, because `btwn` is empty. |
| Geometry.InBetweenUnaligned | src/chess/consts.rs:82-96 | Squares that share no rank, file or diagonal, or that are equal, give 0. |
| Geometry.InBetweenWithin | src/chess/consts.rs:87-95 | Every square of the result has an index strictly between the two inputs, so neither input square is ever included. |
| Tables.FillTable | src/chess/consts.rs:54-66 | After the nested loops, every entry `[i][j]` of the 64 x 64 table holds the function's value at (i, j). |
| Tables.InBetweenTable | src/chess/consts.rs:54-66 | `IN_BETWEEN[i][j] == in_between(i, j)` for all i, j < 64. Each entry therefore holds exactly the squares strictly between i and j. |
| Tables.TableMeaning | src/chess/consts.rs:54-66 | A table that agrees with `in_between` everywhere holds, at `[i][j]`, exactly the squares between i and j. |
| Tables.LineThroughTable | src/chess/consts.rs:68-80 | `LINE_THROUGH[i][j] == line_through(i, j)` for all i, j < 64. |
| Consts.PieceLayout | src/chess/consts.rs:3-18 | The piece indices are 2..7 in order: distinct, different from the side indices 0 and 1, and below 8. |
| Consts.FlagsIncreasing | src/chess/consts.rs:20-36 | The fourteen move flags are strictly increasing, hence distinct. |
| Consts.FlagLayout | src/chess/consts.rs:20-36 | Every flag fits in four bits, and 6 and 7 are unused. A flag is a promotion if and only if it is at least 8. A flag is a capture (including en passant) if and only if bit 2 is set. |
| Consts.PromotionPieces | src/chess/consts.rs:28-35 | For a promotion flag, the low two bits select knight, bishop, rook or queen, with or without capture. |
| Consts.RightsLayout | src/chess/consts.rs:39-45 | The four castling rights are single, pairwise disjoint bits whose union is 0b1111. |
| Consts.SpecialRanks | src/chess/consts.rs:48-52 | `Rank::PEN` is exactly rank 7 for White and rank 2 for Black. `Rank::DBL` is exactly rank 4 for White and rank 5 for Black. |
| Consts.SpecialRanksMirror | src/chess/consts.rs:48-52 | Black's masks are White's reflected top to bottom. |
| InitMacro.Init | src/lib.rs:4-14 | After `init!`, element sq is the body evaluated at sq for every sq < size. The placeholder fill survives nowhere. |
| BitLoopMacro.TrailingZeros | src/lib.rs:22 | `trailing_zeros` is 64 exactly for the empty bitboard. Otherwise it is a member, and no member lies below it. |
| BitLoopMacro.ClearLowest | src/lib.rs:23 | `bb &= bb - 1` removes exactly the lowest member and keeps every other square. |
| BitLoopMacro.ClearLowestMembers | src/lib.rs:21-23 | One round removes the lowest square from the set still to visit and lowers the population count by one, so the loop ends. |
| BitLoopMacro.CountClear | src/lib.rs:23 | Removing a member lowers the population count by exactly one. |
| BitLoopMacro.BitLoop | src/lib.rs:17-28 | The body runs once for each member of the bitboard and for no other square. The squares come in strictly increasing order, popcount-many in all. |
| Perft.Perft | src/chess.rs:15-38 | The count is the length of the reference list of legal move sequences of length `depth`, where a sequence is listed as often as the generator produces it. With no legal moves it is 0. When reporting at depth > 1, it emits one (move, subtree count) pair per legal move, in generation order. Without reporting, or at depth 1, it emits nothing. |
| Perft.LinesMembers | src/chess.rs:15-38 | The reference list holds exactly the move sequences of length d whose every move is legal where it is played. |
| Perft.LinesSplit | src/chess.rs:22-37 | At depth d >= 1, the count is the sum over the legal moves of the depth d - 1 counts after each move. |
| Perft.LinesDepthOne | src/chess.rs:16-19 | At depth 1, the count is the number of legal moves. |
| Perft.LinesDistinct | src/chess.rs:15-38 | When the generator never lists a move twice, no legal sequence is listed twice. Together with `Perft.LinesMembers`, `perft` then counts the distinct legal sequences. |
| Perft.NoMovesNoLines | src/chess.rs:15-38 | A position without legal moves has count 0 at every depth >= 1. |
| Format.ConvertVisits | src/format.rs:18 | The element-wise conversion keeps the length, the order and every visit count, and converts every move. |
| Format.NewSearchData | src/format.rs:10-20 | `SearchData::new` converts the best move and keeps the score as given. It maps an absent distribution to absent, and converts a present one element-wise. |
| Format.ConvertKeepsVisits | src/format.rs:18 | The visit counts, in order, are the same before and after conversion. |
| Format.NewSearchDataIdentity | src/format.rs:10-20 | With the identity conversion, `SearchData::new` stores its arguments unchanged. |
| Format.ConvertVisitsCompose | src/format.rs:18 | Converting with f and then with g equals converting once with g after f. |
| Format.New | src/format.rs:30-32 | `new` stores the given start position and castling descriptor, with no records. |
| Format.Push | src/format.rs:34-36 | `push` appends: the length grows by one, the earlier records are unchanged, and the new record is last. |
| Format.Pop | src/format.rs:38-40 | `pop` returns `None` exactly on an empty record, which is then unchanged. Otherwise it returns a record and a game that give back the input when the record is pushed again. |
| Format.PushThenPop | src/format.rs:34-40 | `pop` after `push(x)` returns `x` and the game as it was before the push. |
| Format.PopNew | src/format.rs:30-40 | A new record has nothing to pop. |
| Format.Popped | src/format.rs:38-40 | The results of popping every record come in reverse order of pushing. |
| Format.PushAllThenPopAll | src/format.rs:34-40 | Pushing any sequence of records and then popping as many times restores the game. The records come back last first. |

## Left out

- `line_through` (src/chess/consts.rs:1, 68-80) belongs to the attacks module, which is not part of this model. `Tables.LineThroughTable` takes it as a parameter and models only the table fill.
- `Position`, `Castling`, `Move` and `Attacks` are not part of this model. `map_legal_moves` and `make` are the two functions of `Perft.Engine`. The three types are type parameters.
- The `println!` report and the UCI text of moves (src/chess.rs:30-32) are console output. `Perft.Perft` returns the reported (move, count) pairs as data instead, without formatting them.
- Perft.Perft: the count is an unbounded natural number, so overflow of the `u64` in `count += sub_count` is not modelled.
- Perft.Perft: at depth 0 with a legal move, the source computes `depth - 1` on a `u8`, which panics in a debug build and wraps to 255 in a release build. The model requires depth >= 1, or no legal moves, where the source returns 0.
- The `f32` score of `SearchData` is carried as its 32-bit pattern and never computed on. The files modelled here contain no binary encoding of records, so no codec is modelled.
- `STARTPOS` (src/chess.rs:7) is input for a FEN parser that is not part of this model. The published leaf counts from it need the real move generator.
- Macro mechanics (hygiene, `const` evaluation, `static` initialisation) are not modelled. `InitMacro.Init` takes the body as a function. `BitLoopMacro.BitLoop` returns the squares its body would run with, in order, instead of running a body.
- BitLoopMacro.BitLoop: the body runs inside the source's `while` (src/lib.rs:25). A `break`, `return` or `?` in it ends the loop early. The model promises one run per member only for a body that always completes.
- BitLoopMacro.BitLoop: the cast of `sq` to `u16` is not modelled. Squares are 8-bit values below 64, and the cast loses nothing.
- `usize` is taken to be 64 bits wide.
- `&mut self` in `push`/`pop` is modelled as returning the new record. Arrays and `Vec`s are sequences.
