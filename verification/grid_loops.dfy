/** The loops of `cifrarTransposicion` and `descifrarTransposicion` as
    written: a grid of `rows` rows and `|key|` columns filled cell by cell
    with a running counter, then read out. Each method computes exactly the
    corresponding function of `Transposition`. */
module GridLoops {

  import opened Alphabet
  import opened Normalizer
  import opened Columns
  import opened Rearrange
  import opened Transposition
  import Arith

  /** What cell `t` of the grid, counted row by row, receives: the `t`-th
      letter while letters remain, `X` after that. */
  function PadAt(p: string, t: nat): char {
    if t < |p| then p[t] else 'X'
  }

  /** One pass of the inner fill loop (cifrados.js:142-149): the `k` cells of
      the row starting at cell `base`. The counter `next` is the source's `k`,
      the number of letters used so far. */
  method FillRow(p: string, k: nat, base: nat, next: nat) returns (row: seq<char>, next': nat)
    requires next == if base < |p| then base else |p|
    ensures |row| == k
    ensures forall c :: 0 <= c < k ==> row[c] == PadAt(p, base + c)
    ensures next' == if base + k < |p| then base + k else |p|
  {
    row := [];
    next' := next;
    var j := 0;
    while j < k
      invariant 0 <= j <= k
      invariant |row| == j
      invariant next' == if base + j < |p| then base + j else |p|
      invariant forall c :: 0 <= c < j ==> row[c] == PadAt(p, base + c)
    {
      if next' < |p| {
        row := row + [p[next']];
        next' := next' + 1;
      } else {
        row := row + ['X'];
      }
      j := j + 1;
    }
  }

  /** The fill loop of cifrados.js:140-151: the rows one after another. */
  method FillRows(p: string, k: nat) returns (grid: seq<seq<char>>)
    requires k > 0
    ensures |grid| == Rows(|p|, k)
    ensures forall r :: 0 <= r < |grid| ==> |grid[r]| == k
    ensures forall r, j :: 0 <= r < |grid| && 0 <= j < k ==> grid[r][j] == PadAt(p, r * k + j)
  {
    var rows := Rows(|p|, k);
    grid := [];
    var next := 0;
    var base := 0;
    var i := 0;
    while i < rows
      invariant 0 <= i <= rows
      invariant |grid| == i && base == i * k
      invariant next == if base < |p| then base else |p|
      invariant forall r :: 0 <= r < i ==> |grid[r]| == k
      invariant forall r, j :: 0 <= r < i && 0 <= j < k ==> grid[r][j] == PadAt(p, r * k + j)
    {
      var row;
      row, next := FillRow(p, k, base, next);
      grid := grid + [row];
      base := base + k;
      i := i + 1;
    }
  }

  /** The padded grid stored row by row is `Padded`. */
  lemma PadAtPadded(p: string, k: nat, t: nat)
    requires k > 0 && t < Rows(|p|, k) * k
    ensures PadAt(p, t) == Padded(p, k)[t]
  {
  }

  /** The inner read loop of cifrados.js:169-172: one column, top to
      bottom. */
  method ReadColumn(grid: seq<seq<char>>, column: nat) returns (s: string)
    requires forall r :: 0 <= r < |grid| ==> column < |grid[r]|
    ensures |s| == |grid|
    ensures forall r :: 0 <= r < |grid| ==> s[r] == grid[r][column]
  {
    s := [];
    var row := 0;
    while row < |grid|
      invariant 0 <= row <= |grid|
      invariant |s| == row
      invariant forall r :: 0 <= r < row ==> s[r] == grid[r][column]
    {
      s := s + [grid[row][column]];
      row := row + 1;
    }
  }

  /** Reading the `i`-th column in reading order extends the ciphertext by
      the next `rows` characters, from position `base = i * rows` on. */
  lemma EncryptColumnStep(p: string, key: string, i: nat, base: nat, column: string)
    requires key != [] && i < |key|
    requires |column| == Rows(|p|, |key|) && base == i * |column|
    requires forall r :: 0 <= r < |column| ==> column[r] == PadAt(p, r * |key| + ColumnOrder(key)[i])
    ensures base + |column| <= |EncryptText(p, key)|
    ensures EncryptText(p, key)[..base + |column|] == EncryptText(p, key)[..base] + column
  {
    var rows := |column|;
    var e := EncryptText(p, key);
    if rows > 0 {
      Arith.CellInGrid(i, rows - 1, |key|, rows);
    }
    forall r | 0 <= r < rows
      ensures e[base + r] == column[r]
    {
      EncryptReadsColumns(p, key, i, r);
      PadAtPadded(p, |key|, r * |key| + ColumnOrder(key)[i]);
    }
  }

  /** The read loop of cifrados.js:167-173: the columns in reading order,
      each top to bottom. */
  method ReadColumns(p: string, key: string, grid: seq<seq<char>>) returns (out: string)
    requires key != []
    requires |grid| == Rows(|p|, |key|)
    requires forall r :: 0 <= r < |grid| ==> |grid[r]| == |key|
    requires forall r, j :: 0 <= r < |grid| && 0 <= j < |key| ==> grid[r][j] == PadAt(p, r * |key| + j)
    ensures out == EncryptText(p, key)
  {
    var rows := |grid|;
    var order := ColumnOrder(key);
    ghost var e := EncryptText(p, key);
    out := [];
    ghost var base: nat := 0;
    var i := 0;
    while i < |key|
      invariant 0 <= i <= |key| && base == i * rows
      invariant base <= |e| && out == e[..base]
    {
      var column := ReadColumn(grid, order[i]);
      EncryptColumnStep(p, key, i, base, column);
      out := out + column;
      Arith.MulNext(i, rows);
      base := base + rows;
      i := i + 1;
    }
    assert |key| * rows == rows * |key|;
    assert out == e;
  }

  /** `cifrarTransposicion` step by step: clean the inputs, reject a key
      without letters, fill the grid, read the columns. */
  method EncryptByGrid(message: string, key: string) returns (r: CipherResult)
    ensures r == Encrypt(message, key)
  {
    var p := CleanLetters(message);
    var k := CleanLetters(key);
    if |k| == 0 {
      return KeyError;
    }
    var grid := FillRows(p, |k|);
    var out := ReadColumns(p, k, grid);
    return Text(out);
  }

  /** What cell `(r, j)` of the decryption grid holds once every column has
      been refilled: ciphertext position `Rank(order, j) * rows + r`, or the
      initial `""` when the ciphertext is shorter. */
  function Refilled(c: string, key: string, rows: nat, r: nat, j: nat): (cell: string)
    requires j < |key|
    ensures |cell| <= 1
  {
    var at := Rank(ColumnOrder(key), j) * rows + r;
    if at < |c| then [c[at]] else []
  }

  /** The decryption grid after the columns of rank below `i`, and the top
      `row` cells of the column of rank `i`, have been refilled; every other
      cell still holds `""`. */
  predicate Refilling(c: string, key: string, rows: nat, grid: seq<seq<string>>, i: nat, row: nat) {
    && |grid| == rows
    && (forall r :: 0 <= r < rows ==> |grid[r]| == |key|)
    && (forall r, j :: 0 <= r < rows && 0 <= j < |key| ==>
          grid[r][j] == (if Rank(ColumnOrder(key), j) < i || (Rank(ColumnOrder(key), j) == i && r < row)
                         then Refilled(c, key, rows, r, j) else []))
  }

  /** The cell the fill loop writes at `row` of the column of rank `i` is
      the cell the refill promises there. */
  lemma RefilledAtRow(c: string, key: string, rows: nat, i: nat, base: nat, row: nat, next: nat)
    requires i < |key| && base == i * rows
    requires next == if base + row < |c| then base + row else |c|
    ensures Refilled(c, key, rows, row, ColumnOrder(key)[i]) == (if next < |c| then [c[next]] else [])
  {
    RankOfColumn(key, i);
  }

  /** One step of the inner fill loop, at one cell: only cell
      `(row, order[i])` may change, and it becomes what the refill promises. */
  lemma RefillStepAt(c: string, key: string, rows: nat, grid: seq<seq<string>>, grid': seq<seq<string>>,
                     i: nat, base: nat, row: nat, next: nat, r: nat, j: nat)
    requires i < |key| && base == i * rows && row < rows
    requires Refilling(c, key, rows, grid, i, row)
    requires next == if base + row < |c| then base + row else |c|
    requires grid' == if next < |c| then grid[row := grid[row][ColumnOrder(key)[i] := [c[next]]]] else grid
    requires r < rows && j < |key|
    ensures grid'[r][j] == (if Rank(ColumnOrder(key), j) < i || (Rank(ColumnOrder(key), j) == i && r < row + 1)
                            then Refilled(c, key, rows, r, j) else [])
  {
    var order := ColumnOrder(key);
    var column := order[i];
    RankOfColumn(key, i);
    if r == row && j == column {
      RefilledAtRow(c, key, rows, i, base, row, next);
    } else {
      assert grid'[r][j] == grid[r][j];
      assert Rank(order, j) == i ==> j == column;
    }
  }

  /** One step of the inner fill loop: cell `(row, order[i])` takes
      ciphertext position `next` while characters remain, and the refilled
      part of the grid grows by that cell. */
  lemma RefillStep(c: string, key: string, rows: nat, grid: seq<seq<string>>, grid': seq<seq<string>>,
                   i: nat, base: nat, row: nat, next: nat)
    requires i < |key| && base == i * rows && row < rows
    requires Refilling(c, key, rows, grid, i, row)
    requires next == if base + row < |c| then base + row else |c|
    requires grid' == if next < |c| then grid[row := grid[row][ColumnOrder(key)[i] := [c[next]]]] else grid
    ensures Refilling(c, key, rows, grid', i, row + 1)
  {
    assert |grid'| == rows;
    assert forall r :: 0 <= r < rows ==> |grid'[r]| == |key|;
    forall r, j | 0 <= r < rows && 0 <= j < |key|
      ensures grid'[r][j] == (if Rank(ColumnOrder(key), j) < i || (Rank(ColumnOrder(key), j) == i && r < row + 1)
                              then Refilled(c, key, rows, r, j) else [])
    {
      RefillStepAt(c, key, rows, grid, grid', i, base, row, next, r, j);
    }
  }

  /** A column refilled to the bottom row is refilled. */
  lemma RefillColumnDone(c: string, key: string, rows: nat, grid: seq<seq<string>>, i: nat)
    requires Refilling(c, key, rows, grid, i, rows)
    ensures Refilling(c, key, rows, grid, i + 1, 0)
  {
  }

  /** The inner fill loop of cifrados.js:204-210 for the column of rank `i`:
      top to bottom, each cell takes the next ciphertext character while
      characters remain. `base` is `i * rows`, the cells of the columns
      already refilled. */
  method RefillColumn(c: string, key: string, rows: nat, grid: seq<seq<string>>, i: nat, base: nat, next: nat)
    returns (grid': seq<seq<string>>, next': nat)
    requires i < |key| && base == i * rows
    requires Refilling(c, key, rows, grid, i, 0)
    requires next == if base < |c| then base else |c|
    ensures Refilling(c, key, rows, grid', i + 1, 0)
    ensures next' == if base + rows < |c| then base + rows else |c|
  {
    var column := ColumnOrder(key)[i];
    grid', next' := grid, next;
    var row := 0;
    while row < rows
      invariant 0 <= row <= rows
      invariant Refilling(c, key, rows, grid', i, row)
      invariant next' == if base + row < |c| then base + row else |c|
    {
      ghost var before := grid';
      if next' < |c| {
        grid' := grid'[row := grid'[row][column := [c[next']]]];
      }
      RefillStep(c, key, rows, before, grid', i, base, row, next');
      if next' < |c| {
        next' := next' + 1;
      }
      row := row + 1;
    }
    RefillColumnDone(c, key, rows, grid', i);
  }

  /** The fill loop of cifrados.js:202-211: the columns in reading order. */
  method RefillColumns(c: string, key: string) returns (grid: seq<seq<string>>)
    requires key != []
    ensures Refilling(c, key, Rows(|c|, |key|), grid, |key|, 0)
  {
    var rows := Rows(|c|, |key|);
    grid := seq(rows, _ => seq(|key|, _ => []));
    var next: nat := 0;
    var base: nat := 0;
    var i := 0;
    while i < |key|
      invariant 0 <= i <= |key| && base == i * rows
      invariant Refilling(c, key, rows, grid, i, 0)
      invariant next == if base < |c| then base else |c|
    {
      grid, next := RefillColumn(c, key, rows, grid, i, base, next);
      Arith.MulNext(i, rows);
      base := base + rows;
      i := i + 1;
    }
  }

  /** The inner read loop of cifrados.js:216-218: one row, left to right,
      each cell contributing its character or nothing. */
  method ReadRow(row: seq<string>) returns (s: string)
    ensures s == Flatten(row)
  {
    s := [];
    var j := 0;
    while j < |row|
      invariant 0 <= j <= |row|
      invariant s == Flatten(row[..j])
    {
      assert row[..j + 1] == row[..j] + [row[j]];
      FlattenAppend(row[..j], [row[j]]);
      FlattenOne(row[j]);
      s := s + row[j];
      j := j + 1;
    }
    assert row[..|row|] == row;
  }

  /** Cell `(r, j)` of the refilled grid is cell `r * |key| + j` of
      `DecryptCells`. */
  lemma CellOfGrid(c: string, key: string, r: nat, j: nat)
    requires key != [] && r < Rows(|c|, |key|) && j < |key|
    ensures r * |key| + j < |DecryptCells(c, key)|
    ensures DecryptCells(c, key)[r * |key| + j] == Refilled(c, key, Rows(|c|, |key|), r, j)
  {
    var rows := Rows(|c|, |key|);
    RowSourceAt(ColumnOrder(key), rows, r, j);
    assert DecryptCells(c, key)[r * |key| + j] == Slot(c, ColumnOrder(key), rows, r * |key| + j);
  }

  /** Row `r` of the refilled grid is the `r`-th block of `|key|` cells of
      `DecryptCells`. */
  lemma RowOfCells(c: string, key: string, grid: seq<seq<string>>, r: nat)
    requires key != []
    requires Refilling(c, key, Rows(|c|, |key|), grid, |key|, 0)
    requires r < Rows(|c|, |key|)
    ensures (r + 1) * |key| <= |DecryptCells(c, key)|
    ensures grid[r] == DecryptCells(c, key)[r * |key|..(r + 1) * |key|]
  {
    var rows := Rows(|c|, |key|);
    var order := ColumnOrder(key);
    var cells := DecryptCells(c, key);
    Arith.CellInGrid(r, |key| - 1, rows, |key|);
    forall j | 0 <= j < |key|
      ensures grid[r][j] == cells[r * |key| + j]
    {
      CellOfGrid(c, key, r, j);
    }
  }

  /** Reading row `r` extends the plaintext by that row's cells. */
  lemma ReadRowStep(c: string, key: string, grid: seq<seq<string>>, r: nat, base: nat)
    requires key != []
    requires Refilling(c, key, Rows(|c|, |key|), grid, |key|, 0)
    requires r < Rows(|c|, |key|) && base == r * |key|
    ensures base + |key| <= |DecryptCells(c, key)|
    ensures Flatten(DecryptCells(c, key)[..base + |key|])
         == Flatten(DecryptCells(c, key)[..base]) + Flatten(grid[r])
  {
    var cells := DecryptCells(c, key);
    RowOfCells(c, key, grid, r);
    Arith.MulNext(r, |key|);
    assert cells[..base + |key|] == cells[..base] + cells[base..base + |key|];
    FlattenAppend(cells[..base], cells[base..base + |key|]);
  }

  /** The read loop of cifrados.js:214-219: the rows top to bottom. */
  method ReadRows(c: string, key: string, grid: seq<seq<string>>) returns (out: string)
    requires key != []
    requires Refilling(c, key, Rows(|c|, |key|), grid, |key|, 0)
    ensures out == DecryptText(c, key)
  {
    var rows := Rows(|c|, |key|);
    ghost var cells := DecryptCells(c, key);
    out := [];
    ghost var base: nat := 0;
    var r := 0;
    while r < rows
      invariant 0 <= r <= rows && base == r * |key|
      invariant base <= |cells| && out == Flatten(cells[..base])
    {
      var s := ReadRow(grid[r]);
      ReadRowStep(c, key, grid, r, base);
      Arith.MulNext(r, |key|);
      out := out + s;
      base := base + |key|;
      r := r + 1;
    }
    assert cells[..base] == cells;
  }

  /** `descifrarTransposicion` step by step: clean the inputs, reject a key
      without letters, refill the columns in reading order, read the rows. */
  method DecryptByGrid(message: string, key: string) returns (r: CipherResult)
    ensures r == Decrypt(message, key)
  {
    var c := CleanLetters(message);
    var k := CleanLetters(key);
    if |k| == 0 {
      return KeyError;
    }
    var grid := RefillColumns(c, k);
    var out := ReadRows(c, k, grid);
    return Text(out);
  }
}
