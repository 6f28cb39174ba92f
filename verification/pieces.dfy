/** The piece catalogue: the seven shape tables, their colour index, and the
    in-place rotation of a square piece matrix. */
module Pieces {
  import opened Util
  import opened Board

  /** The seven piece types. */
  datatype Kind = I | L | J | O | T | S | Z

  /** The value `createPiece` stores in the cells of a piece of type `k`. */
  function CellValue(k: Kind): int
  {
    match k
    case I => 1
    case L => 2
    case J => 3
    case O => 4
    case Z => 5
    case S => 6
    case T => 7
  }

  /** The piece letters in the order the randomiser draws them from. */
  const Letters: string := "ILJOTSZ"

  /** The letter that names type `k`. */
  function Letter(k: Kind): char
  {
    match k
    case I => 'I'
    case L => 'L'
    case J => 'J'
    case O => 'O'
    case T => 'T'
    case S => 'S'
    case Z => 'Z'
  }

  /** The colour index `playerReset` records: one more than the position of
      the piece's letter in "ILJOTSZ". */
  function ColorIndex(k: Kind): (r: int)
    ensures 1 <= r <= 7
    ensures Letters[r - 1] == Letter(k)
  {
    match k
    case I => 1
    case L => 2
    case J => 3
    case O => 4
    case T => 5
    case S => 6
    case Z => 7
  }

  /** Every row is as long as the matrix is high. */
  ghost predicate Square(m: Grid)
  {
    forall i :: 0 <= i < |m| ==> |m[i]| == |m|
  }

  /** Some cell of the matrix is non-empty. */
  ghost predicate HasBlock(m: Grid)
  {
    exists i, j :: 0 <= i < |m| && 0 <= j < |m[i]| && m[i][j] != 0
  }

  /** A matrix the active piece can hold: square, two to four cells wide
      (the sizes of the catalogue), with at least one block and every cell
      in 0..7. */
  ghost predicate Playable(m: Grid)
  {
    Square(m) && 2 <= |m| <= 4 && HasBlock(m) && CellsIn(m)
  }

  /** Number of non-empty cells in a row. */
  function RowBlocks(row: seq<int>): nat
  {
    if |row| == 0 then 0 else (if row[0] != 0 then 1 else 0) + RowBlocks(row[1..])
  }

  /** Number of non-empty cells in a matrix. */
  function Blocks(m: Grid): nat
  {
    if |m| == 0 then 0 else RowBlocks(m[0]) + Blocks(m[1..])
  }

  /** Some cell of the row is non-empty. */
  predicate RowHasBlock(row: seq<int>)
  {
    exists j :: 0 <= j < |row| && row[j] != 0
  }

  /** The lowest matrix row holding a block, -1 when there is none: the row
      that rests on the floor after a drop to the bottom. */
  function BottomRow(m: Grid): (r: int)
    ensures -1 <= r < |m|
    ensures r >= 0 ==> RowHasBlock(m[r])
    ensures forall i :: r < i < |m| ==> !RowHasBlock(m[i])
  {
    if |m| == 0 then -1
    else if RowHasBlock(m[|m| - 1]) then |m| - 1
    else BottomRow(m[..|m| - 1])
  }

  /** `createPiece`: the shape table of type `k`. It is square (4 wide for I,
      2 for O, 3 otherwise) and every non-empty cell holds `CellValue(k)`. */
  function CreatePiece(k: Kind): (r: Grid)
    ensures Square(r)
    ensures |r| == (if k == I then 4 else if k == O then 2 else 3)
    ensures forall i, j :: 0 <= i < |r| && 0 <= j < |r[i]| ==> r[i][j] == 0 || r[i][j] == CellValue(k)
  {
    match k
    case I => [[0, 1, 0, 0],
               [0, 1, 0, 0],
               [0, 1, 0, 0],
               [0, 1, 0, 0]]
    case L => [[0, 2, 0],
               [0, 2, 0],
               [0, 2, 2]]
    case J => [[0, 3, 0],
               [0, 3, 0],
               [3, 3, 0]]
    case O => [[4, 4],
               [4, 4]]
    case Z => [[5, 5, 0],
               [0, 5, 5],
               [0, 0, 0]]
    case S => [[0, 6, 6],
               [6, 6, 0],
               [0, 0, 0]]
    case T => [[0, 7, 0],
               [7, 7, 7],
               [0, 0, 0]]
  }

  /** Every shape table has exactly four non-empty cells. */
  lemma CreatePieceBlocks(k: Kind)
    ensures Blocks(CreatePiece(k)) == 4
  {
    var m := CreatePiece(k);
    match k
    case I => assert Blocks(m[3..]) == 1;
    case O => assert Blocks(m[1..]) == 2;
    case _ => assert Blocks(m[2..]) == RowBlocks(m[2]);
  }

  /** Every shape table is a playable matrix. */
  lemma CreatePiecePlayable(k: Kind)
    ensures Playable(CreatePiece(k))
  {
    var m := CreatePiece(k);
    assert m[1][1] != 0;
  }

  /** The colour index recorded for a piece names the colour of its cells
      for every type except T and Z, whose indices are each other's cell
      values: the ghost of a T is drawn in the Z colour and vice versa. */
  lemma ColorMatchesCells(k: Kind)
    ensures (forall i, j :: 0 <= i < |CreatePiece(k)| && 0 <= j < |CreatePiece(k)[i]| && CreatePiece(k)[i][j] != 0
               ==> CreatePiece(k)[i][j] == ColorIndex(k))
            <==> k != T && k != Z
  {
    var m := CreatePiece(k);
    if k == T {
      assert m[1][1] == 7 != ColorIndex(k);
    } else if k == Z {
      assert m[0][0] == 5 != ColorIndex(k);
    }
  }

  // ---------------------------------------------------------------------
  // Rotation

  /** Column `j` of the rows `m`, read top to bottom. */
  function Column(m: Grid, j: nat): (r: seq<int>)
    requires forall i :: 0 <= i < |m| ==> j < |m[i]|
    ensures |r| == |m|
    ensures forall i :: 0 <= i < |m| ==> r[i] == m[i][j]
  {
    if |m| == 0 then [] else [m[0][j]] + Column(m[1..], j)
  }

  /** The transpose of a square matrix: the in-place swap of `m[x][y]` and `m[y][x]`. */
  function Transpose(m: Grid): (r: Grid)
    requires Square(m)
    ensures Square(r) && |r| == |m|
    ensures forall i, j :: 0 <= i < |m| && 0 <= j < |m| ==> r[i][j] == m[j][i]
  {
    seq(|m|, j requires 0 <= j < |m| => Column(m, j))
  }

  /** `r` is `m` turned a quarter clockwise: row `i` of `r` is column `i`
      of `m` read bottom to top. */
  ghost predicate Clockwise(r: Grid, m: Grid)
  {
    && Square(r) && |r| == |m| && Square(m)
    && forall i, j :: 0 <= i < |m| && 0 <= j < |m| ==> r[i][j] == m[|m| - 1 - j][i]
  }

  /** `r` is `m` turned a quarter counter-clockwise: row `i` of `r` is
      column `|m| - 1 - i` of `m` read top to bottom. */
  ghost predicate Counterclockwise(r: Grid, m: Grid)
  {
    && Square(r) && |r| == |m| && Square(m)
    && forall i, j :: 0 <= i < |m| && 0 <= j < |m| ==> r[i][j] == m[j][|m| - 1 - i]
  }

  /** `b` is `m` turned half way round. */
  ghost predicate HalfTurned(b: Grid, m: Grid)
  {
    && Square(b) && |b| == |m| && Square(m)
    && forall i, j :: 0 <= i < |m| && 0 <= j < |m| ==> b[i][j] == m[|m| - 1 - i][|m| - 1 - j]
  }

  /** `rotate(m, dir)`: transpose, then reverse each row when `dir > 0`
      (a clockwise quarter turn) or reverse the order of the rows otherwise
      (a counter-clockwise quarter turn). */
  function Rotate(m: Grid, dir: int): (r: Grid)
    requires Square(m)
    ensures Square(r) && |r| == |m|
    ensures dir > 0 ==> Clockwise(r, m)
    ensures dir <= 0 ==> Counterclockwise(r, m)
  {
    ClockwiseOfTranspose(m);
    CounterclockwiseOfTranspose(m);
    var t := Transpose(m);
    if dir > 0 then ReverseEach(t) else Reverse(t)
  }

  /** Reversing the rows of the transpose turns clockwise. */
  lemma ClockwiseOfTranspose(m: Grid)
    requires Square(m)
    ensures Clockwise(ReverseEach(Transpose(m)), m)
  {
    var c := ReverseEach(Transpose(m));
    forall i | 0 <= i < |m|
      ensures |c[i]| == |m| && forall j :: 0 <= j < |m| ==> c[i][j] == m[|m| - 1 - j][i]
    {
      ClockwiseRow(m, i);
    }
  }

  /** One row of the reversed rows of the transpose: column `i` of `m`
      read bottom to top. */
  lemma ClockwiseRow(m: Grid, i: int)
    requires Square(m) && 0 <= i < |m|
    ensures var row := ReverseEach(Transpose(m))[i];
      |row| == |m| && forall j :: 0 <= j < |m| ==> row[j] == m[|m| - 1 - j][i]
  {
    var col := Transpose(m)[i];
    var row := ReverseEach(Transpose(m))[i];
    assert row == Reverse(col) && |col| == |m|;
    forall j | 0 <= j < |m|
      ensures row[j] == m[|m| - 1 - j][i]
    {
      assert row[j] == col[|m| - 1 - j];
    }
  }

  /** Reversing the order of the rows of the transpose turns
      counter-clockwise. */
  lemma CounterclockwiseOfTranspose(m: Grid)
    requires Square(m)
    ensures Counterclockwise(Reverse(Transpose(m)), m)
  {
    var t, n := Transpose(m), |m|;
    var c := Reverse(t);
    forall i | 0 <= i < n
      ensures |c[i]| == n && forall j :: 0 <= j < n ==> c[i][j] == m[j][n - 1 - i]
    {
      var row := c[i];
      assert row == t[n - 1 - i];
      forall j | 0 <= j < n
        ensures row[j] == m[j][n - 1 - i]
      {
      }
    }
  }

  /** Every row reversed, the rows kept in order. */
  function ReverseEach(t: Grid): (r: Grid)
    ensures |r| == |t|
    ensures forall i :: 0 <= i < |t| ==> r[i] == Reverse(t[i])
  {
    if |t| == 0 then [] else [Reverse(t[0])] + ReverseEach(t[1..])
  }

  /** Each cell of a rotated matrix is a cell of the original, and each cell
      of the original appears in the rotated one: the cells stay in 0..7 and
      a matrix with a block still has one. */
  lemma RotateKeepsCells(m: Grid, dir: int)
    requires Square(m)
    ensures CellsIn(m) ==> CellsIn(Rotate(m, dir))
    ensures HasBlock(m) ==> HasBlock(Rotate(m, dir))
  {
    if dir > 0 {
      ClockwiseKeepsCells(Rotate(m, dir), m);
    } else {
      CounterclockwiseKeepsCells(Rotate(m, dir), m);
    }
  }

  /** A clockwise quarter turn moves cell (`a`, `b`) to (`b`, `n - 1 - a`). */
  lemma ClockwiseKeepsCells(r: Grid, m: Grid)
    requires Clockwise(r, m)
    ensures CellsIn(m) ==> CellsIn(r)
    ensures HasBlock(m) ==> HasBlock(r)
  {
    var n := |m|;
    if CellsIn(m) {
      forall i, j | 0 <= i < n && 0 <= j < |r[i]|
        ensures 0 <= r[i][j] <= 7
      {
        assert r[i][j] == m[n - 1 - j][i];
      }
    }
    if HasBlock(m) {
      var a, b :| 0 <= a < n && 0 <= b < |m[a]| && m[a][b] != 0;
      assert r[b][n - 1 - a] == m[a][b];
    }
  }

  /** A counter-clockwise quarter turn moves cell (`a`, `b`) to (`n - 1 - b`, `a`). */
  lemma CounterclockwiseKeepsCells(r: Grid, m: Grid)
    requires Counterclockwise(r, m)
    ensures CellsIn(m) ==> CellsIn(r)
    ensures HasBlock(m) ==> HasBlock(r)
  {
    var n := |m|;
    if CellsIn(m) {
      forall i, j | 0 <= i < n && 0 <= j < |r[i]|
        ensures 0 <= r[i][j] <= 7
      {
        assert r[i][j] == m[j][n - 1 - i];
      }
    }
    if HasBlock(m) {
      var a, b :| 0 <= a < n && 0 <= b < |m[a]| && m[a][b] != 0;
      assert r[n - 1 - b][a] == m[a][b];
    }
  }

  /** A clockwise turn followed by a counter-clockwise one, or the other
      way round, gives back the matrix. */
  lemma {:induction false} QuarterTurnsCancel(m: Grid, r: Grid, b: Grid)
    requires (Clockwise(r, m) && Counterclockwise(b, r)) || (Counterclockwise(r, m) && Clockwise(b, r))
    ensures b == m
  {
    var n := |m|;
    forall i | 0 <= i < n
      ensures b[i] == m[i]
    {
      forall j | 0 <= j < n
        ensures b[i][j] == m[i][j]
      {
        if Clockwise(r, m) && Counterclockwise(b, r) {
          assert b[i][j] == r[j][n - 1 - i];
        } else {
          assert b[i][j] == r[n - 1 - j][i];
        }
      }
    }
  }

  /** Rotating back the other way restores the matrix exactly, for any
      non-zero direction (`playerRotate` relies on this to undo a failed turn). */
  lemma {:induction false} RotateUndo(m: Grid, dir: int)
    requires Square(m)
    ensures dir != 0 ==> Rotate(Rotate(m, dir), -dir) == m
  {
    if dir != 0 {
      QuarterTurnsCancel(m, Rotate(m, dir), Rotate(Rotate(m, dir), -dir));
    }
  }

  /** Two quarter turns in the same sense give the half turn. */
  lemma {:induction false} TwoQuarters(m: Grid, r: Grid, b: Grid)
    requires (Clockwise(r, m) && Clockwise(b, r)) || (Counterclockwise(r, m) && Counterclockwise(b, r))
    ensures HalfTurned(b, m)
  {
    var n := |m|;
    forall i, j | 0 <= i < n && 0 <= j < n
      ensures b[i][j] == m[n - 1 - i][n - 1 - j]
    {
      if Clockwise(r, m) && Clockwise(b, r) {
        assert b[i][j] == r[n - 1 - j][i];
      } else {
        assert b[i][j] == r[j][n - 1 - i];
      }
    }
  }

  /** Two half turns give back the matrix. */
  lemma {:induction false} TwoHalves(m: Grid, h: Grid, b: Grid)
    requires HalfTurned(h, m) && HalfTurned(b, h)
    ensures b == m
  {
    var n := |m|;
    forall i | 0 <= i < n
      ensures b[i] == m[i]
    {
      forall j | 0 <= j < n
        ensures b[i][j] == m[i][j]
      {
        assert b[i][j] == h[n - 1 - i][n - 1 - j];
      }
    }
  }

  /** Two quarter turns in the same direction give the half turn. */
  lemma {:induction false} HalfTurn(m: Grid, dir: int)
    requires Square(m)
    ensures HalfTurned(Rotate(Rotate(m, dir), dir), m)
  {
    TwoQuarters(m, Rotate(m, dir), Rotate(Rotate(m, dir), dir));
  }

  /** With direction 0 both turns are counter-clockwise, so "rotating back"
      does not restore the T piece: it gives its half turn. */
  lemma RotateZeroDoesNotUndoT()
    ensures Rotate(Rotate(CreatePiece(T), 0), -0) != CreatePiece(T)
  {
    var m := CreatePiece(T);
    HalfTurn(m, 0);
    var b := Rotate(Rotate(m, 0), 0);
    assert b[0][1] == m[2][1];
  }

  /** Four quarter turns in the same direction give back the matrix. */
  lemma {:induction false} RotateFour(m: Grid, dir: int)
    requires Square(m)
    ensures Rotate(Rotate(Rotate(Rotate(m, dir), dir), dir), dir) == m
  {
    var h := Rotate(Rotate(m, dir), dir);
    HalfTurn(m, dir);
    HalfTurn(h, dir);
    TwoHalves(m, h, Rotate(Rotate(h, dir), dir));
  }

  // ---------------------------------------------------------------------
  // Rotation keeps the multiset of cell values

  /** The cells of a matrix, row after row. */
  function Flatten(m: Grid): seq<int>
  {
    if |m| == 0 then [] else m[0] + Flatten(m[1..])
  }

  lemma {:induction false} FlattenAppend(a: Grid, b: Grid)
    ensures Flatten(a + b) == Flatten(a) + Flatten(b)
  {
    if |a| == 0 {
      assert a + b == b;
    } else {
      var ab := a + b;
      assert ab[0] == a[0];
      assert ab[1..] == a[1..] + b;
      FlattenAppend(a[1..], b);
      calc {
        Flatten(ab);
        ab[0] + Flatten(ab[1..]);
        a[0] + (Flatten(a[1..]) + Flatten(b));
        (a[0] + Flatten(a[1..])) + Flatten(b);
      }
    }
  }

  /** Reversing every row keeps the cell values. */
  lemma {:induction false} ReverseRowsMultiset(t: Grid)
    ensures multiset(Flatten(ReverseEach(t))) == multiset(Flatten(t))
  {
    if |t| > 0 {
      ReverseMultiset(t[0]);
      ReverseRowsMultiset(t[1..]);
      assert ReverseEach(t)[1..] == ReverseEach(t[1..]);
    }
  }

  /** Reversing the order of the rows keeps the cell values. */
  lemma {:induction false} ReverseOrderMultiset(t: Grid)
    ensures multiset(Flatten(Reverse(t))) == multiset(Flatten(t))
  {
    if |t| > 0 {
      ReverseOrderMultiset(t[1..]);
      FlattenAppend(Reverse(t[1..]), [t[0]]);
      assert Flatten([t[0]]) == t[0];
    }
  }

  /** The first `c` cells of each row. */
  function Prefixes(m: Grid, c: nat): (r: Grid)
    requires forall i :: 0 <= i < |m| ==> c <= |m[i]|
    ensures |r| == |m|
  {
    if |m| == 0 then [] else [m[0][..c]] + Prefixes(m[1..], c)
  }

  /** Widening every row prefix by one cell adds exactly column `c`. */
  lemma {:induction false} PrefixesStep(m: Grid, c: nat)
    requires forall i :: 0 <= i < |m| ==> c < |m[i]|
    ensures multiset(Flatten(Prefixes(m, c + 1))) == multiset(Flatten(Prefixes(m, c))) + multiset(Column(m, c))
  {
    if |m| > 0 {
      var head, x := m[0][..c], m[0][c];
      var restWide, restNarrow, restCol := Flatten(Prefixes(m[1..], c + 1)), Flatten(Prefixes(m[1..], c)), Column(m[1..], c);
      PrefixesStep(m[1..], c);
      PrefixesUnfold(m, c);
      PrefixesUnfold(m, c + 1);
      assert m[0][..c + 1] == head + [x];
      assert Column(m, c) == [x] + restCol;
      MultisetShuffle(head, x, restWide, restNarrow, restCol);
    }
  }

  /** Moving one value and a block of values from one side to the other of
      a multiset equation. */
  lemma MultisetShuffle(head: seq<int>, x: int, wide: seq<int>, narrow: seq<int>, col: seq<int>)
    requires multiset(wide) == multiset(narrow) + multiset(col)
    ensures multiset(head + [x] + wide) == multiset(head + narrow) + multiset([x] + col)
  {
  }

  /** The flattened prefixes start with the first row's prefix. */
  lemma PrefixesUnfold(m: Grid, c: nat)
    requires |m| > 0
    requires forall i :: 0 <= i < |m| ==> c <= |m[i]|
    ensures Flatten(Prefixes(m, c)) == m[0][..c] + Flatten(Prefixes(m[1..], c))
  {
    var p := Prefixes(m, c);
    assert p[0] == m[0][..c] && p[1..] == Prefixes(m[1..], c);
  }

  /** The first `c` rows of the transpose hold the same values as the first
      `c` columns of the matrix. */
  lemma {:induction false} TransposePrefix(m: Grid, c: nat)
    requires Square(m)
    requires c <= |m|
    ensures multiset(Flatten(Transpose(m)[..c])) == multiset(Flatten(Prefixes(m, c)))
  {
    var t := Transpose(m);
    if c == 0 {
      EmptyPrefixes(m);
    } else {
      TransposePrefix(m, c - 1);
      TransposeRows(m, c);
      PrefixesStep(m, c - 1);
    }
  }

  /** One more row of the transpose is one more column of the matrix. */
  lemma TransposeRows(m: Grid, c: nat)
    requires Square(m)
    requires 0 < c <= |m|
    ensures Flatten(Transpose(m)[..c]) == Flatten(Transpose(m)[..c - 1]) + Column(m, c - 1)
  {
    var t := Transpose(m);
    assert t[..c] == t[..c - 1] + [t[c - 1]];
    FlattenAppend(t[..c - 1], [t[c - 1]]);
    assert Flatten([t[c - 1]]) == t[c - 1];
    assert t[c - 1] == Column(m, c - 1);
  }

  /** Prefixes as long as the rows are the rows themselves. */
  lemma {:induction false} WholePrefixes(m: Grid, c: nat)
    requires forall i :: 0 <= i < |m| ==> |m[i]| == c
    ensures Prefixes(m, c) == m
  {
    if |m| > 0 {
      WholePrefixes(m[1..], c);
      assert m[0][..c] == m[0];
      assert m == [m[0]] + m[1..];
    }
  }

  lemma {:induction false} EmptyPrefixes(m: Grid)
    ensures Flatten(Prefixes(m, 0)) == []
  {
    if |m| > 0 {
      EmptyPrefixes(m[1..]);
      assert Prefixes(m, 0)[1..] == Prefixes(m[1..], 0);
    }
  }

  /** Transposing keeps the cell values. */
  lemma {:induction false} TransposeMultiset(m: Grid)
    requires Square(m)
    ensures multiset(Flatten(Transpose(m))) == multiset(Flatten(m))
  {
    var t := Transpose(m);
    TransposePrefix(m, |m|);
    assert t[..|m|] == t;
    WholePrefixes(m, |m|);
  }

  /** A rotation of a playable matrix is playable. */
  lemma RotatePlayable(m: Grid, dir: int)
    requires Playable(m)
    ensures Playable(Rotate(m, dir))
  {
    RotateKeepsCells(m, dir);
  }

  /** A rotation keeps the matrix square and of the same size, and keeps its
      multiset of cell values. */
  lemma {:induction false} RotateMultiset(m: Grid, dir: int)
    requires Square(m)
    ensures Square(Rotate(m, dir)) && |Rotate(m, dir)| == |m|
    ensures multiset(Flatten(Rotate(m, dir))) == multiset(Flatten(m))
  {
    var t := Transpose(m);
    TransposeMultiset(m);
    if dir > 0 {
      ReverseRowsMultiset(t);
    } else {
      ReverseOrderMultiset(t);
    }
  }
}
