/*
 * The two 64 x 64 lookup tables of src/chess/consts.rs, each filled by the
 * same pair of nested `while` loops over a zero-initialised array.
 */
module Tables {
  import opened Board
  import opened Geometry

  /** A 64 x 64 table of bitboards. */
  predicate IsTable(arr: seq<seq<Bitboard>>)
  {
    |arr| == 64 && forall i :: 0 <= i < 64 ==> |arr[i]| == 64
  }

  /** The nested loops: row by row, column by column, entry `[i][j]` is set
      to `f(i, j)`, starting from an all-zero table. */
  method FillTable(f: (Square, Square) -> Bitboard) returns (arr: seq<seq<Bitboard>>)
    ensures IsTable(arr)
    ensures forall i, j :: 0 <= i < 64 && 0 <= j < 64 ==> arr[i][j] == f(i as Square, j as Square)
  {
    arr := seq(64, _ => seq(64, _ => 0));
    var i := 0;
    while i < 64
      invariant 0 <= i <= 64
      invariant IsTable(arr)
      invariant forall k, l :: 0 <= k < i && 0 <= l < 64 ==> arr[k][l] == f(k as Square, l as Square)
    {
      var j := 0;
      while j < 64
        invariant 0 <= j <= 64
        invariant IsTable(arr)
        invariant forall k, l :: 0 <= k < i && 0 <= l < 64 ==> arr[k][l] == f(k as Square, l as Square)
        invariant forall l :: 0 <= l < j ==> arr[i][l] == f(i as Square, l as Square)
      {
        arr := arr[i := arr[i][j := f(i as Square, j as Square)]];
        j := j + 1;
      }
      i := i + 1;
    }
  }

  /** `IN_BETWEEN`: entry `[i][j]` is `in_between(i, j)`, and so holds exactly
      the squares strictly between i and j on their common line (none when
      the two squares share no line). */
  method InBetweenTable() returns (arr: seq<seq<Bitboard>>)
    ensures IsTable(arr)
    ensures forall i, j :: 0 <= i < 64 && 0 <= j < 64 ==> arr[i][j] == InBetween(i as Square, j as Square)
    ensures forall i, j :: 0 <= i < 64 && 0 <= j < 64 ==>
      forall s: Square :: Has(arr[i][j], s) <==> Between(i as Square, j as Square, s)
  {
    arr := FillTable(InBetween);
    TableMeaning(arr);
  }

  /** A table of `in_between` values holds the squares between i and j. */
  lemma TableMeaning(arr: seq<seq<Bitboard>>)
    requires IsTable(arr)
    requires forall i, j :: 0 <= i < 64 && 0 <= j < 64 ==> arr[i][j] == InBetween(i as Square, j as Square)
    ensures forall i, j :: 0 <= i < 64 && 0 <= j < 64 ==>
      forall s: Square :: Has(arr[i][j], s) <==> Between(i as Square, j as Square, s)
  {
    forall i, j | 0 <= i < 64 && 0 <= j < 64
      ensures forall s: Square :: Has(arr[i][j], s) <==> Between(i as Square, j as Square, s)
    {
      InBetweenSpec(i as Square, j as Square);
    }
  }

  /** `LINE_THROUGH`: the same fill over `line_through`, which is passed in
      because its definition is not part of this model. */
  method LineThroughTable(lineThrough: (Square, Square) -> Bitboard) returns (arr: seq<seq<Bitboard>>)
    ensures IsTable(arr)
    ensures forall i, j :: 0 <= i < 64 && 0 <= j < 64 ==> arr[i][j] == lineThrough(i as Square, j as Square)
  {
    arr := FillTable(lineThrough);
  }
}
