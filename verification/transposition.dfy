/** `cifrarTransposicion`, `descifrarTransposicion` and the wrapper
    `transposicionColumnar`: the letters of the message are written row by
    row into a grid as wide as the key, padded with `X`, and read out column
    by column in the key's alphabetical order; decryption refills the columns
    in that order and reads the rows. */
module Transposition {

  import opened Alphabet
  import opened Normalizer
  import opened Columns
  import opened Rearrange
  import Arith

  /** `Math.ceil(longitudMensaje / longitudClave)`: the fewest rows of `k`
      cells that hold `n` letters. */
  function Rows(n: nat, k: nat): (rows: nat)
    requires k > 0
    ensures n <= rows * k
    ensures rows > 0 ==> (rows - 1) * k < n
  {
    assert n + k - 1 == ((n + k - 1) / k) * k + (n + k - 1) % k;
    (n + k - 1) / k
  }

  /** A text that fills its rows exactly needs no more rows. */
  lemma RowsOfFullGrid(rows: nat, k: nat)
    requires k > 0
    ensures Rows(rows * k, k) == rows
  {
    Arith.DivModUnique(rows * k + k - 1, k, rows, k - 1);
  }

  /** The grid of the encryption, row by row: the letters, then `X` in every
      cell left over. */
  function Padded(p: string, k: nat): (g: string)
    requires k > 0
    ensures |g| == Rows(|p|, k) * k
    ensures forall t :: 0 <= t < |g| ==> g[t] == if t < |p| then p[t] else 'X'
  {
    p + seq(Rows(|p|, k) * k - |p|, _ => 'X')
  }

  /** The grid cell read at output position `t`: row `t % rows` of the
      `t / rows`-th column in reading order. */
  function ColumnSource(order: seq<nat>, rows: nat, t: nat): (cell: nat)
    requires |order| > 0 && (forall i :: 0 <= i < |order| ==> order[i] < |order|)
    requires t < rows * |order|
    ensures cell < rows * |order|
  {
    assert rows * |order| == |order| * rows;
    Arith.SplitIndex(t, |order|, rows);
    Arith.CellInGrid(t % rows, order[t / rows], rows, |order|);
    (t % rows) * |order| + order[t / rows]
  }

  /** The ciphertext of the letters `p` under the key letters `key`. */
  function EncryptText(p: string, key: string): (c: string)
    requires key != []
    ensures |c| == Rows(|p|, |key|) * |key|
  {
    var order := ColumnOrder(key);
    var rows := Rows(|p|, |key|);
    var g := Padded(p, |key|);
    seq(rows * |key|, t requires 0 <= t < rows * |key| => g[ColumnSource(order, rows, t)])
  }

  /** Column `i` in reading order fills output positions `i * rows` up to
      `(i + 1) * rows`, top row first. */
  lemma EncryptReadsColumns(p: string, key: string, i: nat, r: nat)
    requires key != [] && i < |key| && r < Rows(|p|, |key|)
    ensures i * Rows(|p|, |key|) + r < |EncryptText(p, key)|
    ensures r * |key| + ColumnOrder(key)[i] < |Padded(p, |key|)|
    ensures EncryptText(p, key)[i * Rows(|p|, |key|) + r]
         == Padded(p, |key|)[r * |key| + ColumnOrder(key)[i]]
  {
    var rows := Rows(|p|, |key|);
    var t := i * rows + r;
    Arith.CellInGrid(i, r, |key|, rows);
    assert |key| * rows == rows * |key|;
    Arith.CellInGrid(r, ColumnOrder(key)[i], rows, |key|);
    Arith.DivModUnique(t, rows, i, r);
    assert EncryptText(p, key)[t] == Padded(p, |key|)[ColumnSource(ColumnOrder(key), rows, t)];
  }

  /** Distinct positions of a reading order hold distinct columns. */
  lemma OrderDistinct(key: string, a: nat, b: nat)
    requires a < |key| && b < |key| && ColumnOrder(key)[a] == ColumnOrder(key)[b]
    ensures a == b
  {
    ColumnOrderSorted(key);
  }

  /** Encryption only rearranges the padded grid. */
  lemma EncryptIsPermutation(p: string, key: string)
    requires key != []
    ensures multiset(EncryptText(p, key)) == multiset(Padded(p, |key|))
  {
    var k := |key|;
    var rows := Rows(|p|, k);
    var order := ColumnOrder(key);
    var c := EncryptText(p, key);
    var g := Padded(p, k);
    var f := seq(rows * k, t requires 0 <= t < rows * k => ColumnSource(order, rows, t));
    forall t | 0 <= t < |f|
      ensures f[t] < |g| && c[t] == g[f[t]]
    {
    }
    forall t1, t2 | 0 <= t1 < t2 < |f|
      ensures f[t1] != f[t2]
    {
      Arith.SplitIndex(t1, k, rows);
      Arith.SplitIndex(t2, k, rows);
      if f[t1] == f[t2] {
        Arith.CellUnique(t1 % rows, order[t1 / rows], t2 % rows, order[t2 / rows], k);
        OrderDistinct(key, t1 / rows, t2 / rows);
      }
    }
    Reindex(c, g, f);
  }

  /** The ciphertext position that refills cell `t` of the grid, counted row
      by row: cell `(r, j)` with `r = t / k` and `j = t % k`. Column `j` is
      the `Rank(order, j)`-th column filled, so it takes positions from
      `Rank(order, j) * rows` on, top row first. */
  function RowSource(order: seq<nat>, rows: nat, t: nat): (at: nat)
    requires |order| > 0 && forall c: nat :: c in order <==> c < |order|
    requires t < rows * |order|
    ensures at < rows * |order|
  {
    Arith.SplitIndex(t, rows, |order|);
    Arith.CellInGrid(Rank(order, t % |order|), t / |order|, |order|, rows);
    assert |order| * rows == rows * |order|;
    Rank(order, t % |order|) * rows + t / |order|
  }

  /** Cell `t` of the refilled grid: its character, or the initial `""` when
      the ciphertext ran out before reaching it (`k < longitudMensaje`
      failed). */
  function Slot(c: string, order: seq<nat>, rows: nat, t: nat): (cell: string)
    requires |order| > 0 && forall c: nat :: c in order <==> c < |order|
    requires t < rows * |order|
  {
    var at := RowSource(order, rows, t);
    if at < |c| then [c[at]] else []
  }

  /** The refilled grid's cells in the order the rows are read: one cell per
      grid position, each holding at most one character. */
  function DecryptCells(c: string, key: string): (cells: seq<string>)
    requires key != []
    ensures |cells| == Rows(|c|, |key|) * |key|
    ensures forall t :: 0 <= t < |cells| ==> |cells[t]| <= 1
  {
    var order := ColumnOrder(key);
    var rows := Rows(|c|, |key|);
    seq(rows * |key|, t requires 0 <= t < rows * |key| => Slot(c, order, rows, t))
  }

  /** The plaintext read back from the ciphertext letters `c`. */
  function DecryptText(c: string, key: string): (p: string)
    requires key != []
  {
    Flatten(DecryptCells(c, key))
  }

  /** Cell `(r, j)` of the refilled grid takes ciphertext position
      `Rank(order, j) * rows + r`. */
  lemma RowSourceAt(order: seq<nat>, rows: nat, r: nat, j: nat)
    requires |order| > 0 && forall c: nat :: c in order <==> c < |order|
    requires r < rows && j < |order|
    ensures r * |order| + j < rows * |order|
    ensures RowSource(order, rows, r * |order| + j) == Rank(order, j) * rows + r
  {
    Arith.CellInGrid(r, j, rows, |order|);
    Arith.DivModUnique(r * |order| + j, |order|, r, j);
  }

  /** The column at position `i` of the reading order has rank `i`. */
  lemma RankOfColumn(key: string, i: nat)
    requires i < |key|
    ensures ColumnOrder(key)[i] in ColumnOrder(key)
    ensures Rank(ColumnOrder(key), ColumnOrder(key)[i]) == i
  {
    var order := ColumnOrder(key);
    assert order[i] in order;
    OrderDistinct(key, Rank(order, order[i]), i);
  }

  /** Decryption only rearranges the ciphertext, whatever its length: every
      character lands in exactly one cell and no cell is read twice. */
  lemma DecryptIsPermutation(c: string, key: string)
    requires key != []
    ensures multiset(DecryptText(c, key)) == multiset(c)
  {
    var k := |key|;
    var rows := Rows(|c|, k);
    var order := ColumnOrder(key);
    var cells := DecryptCells(c, key);
    var source := IndexCells(c, rows * k);
    var f := seq(rows * k, t requires 0 <= t < rows * k => RowSource(order, rows, t));
    forall t | 0 <= t < |f|
      ensures f[t] < |source| && cells[t] == source[f[t]]
    {
    }
    forall t1, t2 | 0 <= t1 < t2 < |f|
      ensures f[t1] != f[t2]
    {
      Arith.SplitIndex(t1, rows, k);
      Arith.SplitIndex(t2, rows, k);
      if f[t1] == f[t2] {
        Arith.CellUnique(Rank(order, t1 % k), t1 / k, Rank(order, t2 % k), t2 / k, rows);
      }
    }
    Reindex(cells, source, f);
    FlattenRespectsMultiset(cells, source);
    FlattenIndexCells(c, rows * k);
  }

  /** In a ciphertext that fills its grid, every refilled cell holds one
      character. */
  lemma FullGridCells(c: string, key: string)
    requires key != [] && |c| == Rows(|c|, |key|) * |key|
    ensures forall t :: 0 <= t < |c| ==>
              DecryptCells(c, key)[t] == [c[RowSource(ColumnOrder(key), Rows(|c|, |key|), t)]]
  {
    var order, rows := ColumnOrder(key), Rows(|c|, |key|);
    forall t | 0 <= t < |c|
      ensures DecryptCells(c, key)[t] == [c[RowSource(order, rows, t)]]
    {
      assert DecryptCells(c, key)[t] == Slot(c, order, rows, t);
    }
  }

  /** A ciphertext that fills its grid is read back character for character:
      position `t` of the plaintext is ciphertext position
      `RowSource(order, rows, t)`. */
  lemma DecryptFullGrid(c: string, key: string)
    requires key != [] && |c| == Rows(|c|, |key|) * |key|
    ensures |DecryptText(c, key)| == |c|
    ensures forall t :: 0 <= t < |c| ==>
              DecryptText(c, key)[t] == c[RowSource(ColumnOrder(key), Rows(|c|, |key|), t)]
  {
    FullGridCells(c, key);
    FlattenSingles(DecryptCells(c, key));
  }

  /** Decrypting a ciphertext with the key that made it gives back the padded
      grid: the message's letters followed by the `X` padding. */
  lemma DecryptEncrypt(p: string, key: string)
    requires key != []
    ensures DecryptText(EncryptText(p, key), key) == Padded(p, |key|)
  {
    var k := |key|;
    var rows := Rows(|p|, k);
    var order := ColumnOrder(key);
    var c := EncryptText(p, key);
    var g := Padded(p, k);
    RowsOfFullGrid(rows, k);
    DecryptFullGrid(c, key);
    var d := DecryptText(c, key);
    forall t | 0 <= t < |g|
      ensures d[t] == g[t]
    {
      Arith.SplitIndex(t, rows, k);
      var r, j := t / k, t % k;
      EncryptReadsColumns(p, key, Rank(order, j), r);
    }
  }

  /** Padding only adds `X`, so a grid of letters stays letters. */
  lemma EncryptKeepsLetters(p: string, key: string)
    requires key != [] && IsLetters(p)
    ensures IsLetters(EncryptText(p, key))
  {
    var c := EncryptText(p, key);
    forall t | 0 <= t < |c|
      ensures IsLetter(c[t])
    {
    }
  }

  /** A message that fills its rows exactly is not padded. */
  lemma PaddedFullRows(p: string, k: nat)
    requires k > 0 && |p| % k == 0
    ensures Padded(p, k) == p
  {
    assert |p| == (|p| / k) * k;
    RowsOfFullGrid(|p| / k, k);
  }

  /** `cifrarTransposicion(mensaje, clave)`: an error for a key without
      letters; otherwise the letters of the message padded with `X` to the
      smallest multiple of the key length and rearranged. */
  function Encrypt(message: string, key: string): (r: CipherResult)
    ensures r.KeyError? <==> CleanLetters(key) == []
    ensures r.Text? ==> |r.value| == Rows(|CleanLetters(message)|, |CleanLetters(key)|) * |CleanLetters(key)|
    ensures r.Text? ==>
              multiset(r.value) == multiset(Padded(CleanLetters(message), |CleanLetters(key)|))
  {
    var k := CleanLetters(key);
    if k == [] then KeyError
    else
      EncryptIsPermutation(CleanLetters(message), k);
      Text(EncryptText(CleanLetters(message), k))
  }

  /** `descifrarTransposicion(mensaje, clave)`: an error for a key without
      letters; otherwise a rearrangement of the letters of the ciphertext. */
  function Decrypt(message: string, key: string): (r: CipherResult)
    ensures r.KeyError? <==> CleanLetters(key) == []
    ensures r.Text? ==> multiset(r.value) == multiset(CleanLetters(message))
  {
    var k := CleanLetters(key);
    if k == [] then KeyError
    else
      DecryptIsPermutation(CleanLetters(message), k);
      Text(DecryptText(CleanLetters(message), k))
  }

  /** `transposicionColumnar(mensaje, clave, cifrar)`: encrypts when
      `encrypt` holds and decrypts otherwise. */
  function Transpose(message: string, key: string, encrypt: bool): (r: CipherResult)
    ensures r.KeyError? <==> CleanLetters(key) == []
    ensures r.Text? && encrypt ==>
              multiset(r.value) == multiset(Padded(CleanLetters(message), |CleanLetters(key)|))
    ensures r.Text? && !encrypt ==> multiset(r.value) == multiset(CleanLetters(message))
  {
    if encrypt then Encrypt(message, key) else Decrypt(message, key)
  }

  /** Decrypting an encryption with the same key gives back the message's
      letters followed by the padding; with no padding, exactly the
      message's letters. */
  lemma TranspositionRoundTrip(message: string, key: string)
    requires CleanLetters(key) != []
    ensures Transpose(Transpose(message, key, true).value, key, false)
         == Text(Padded(CleanLetters(message), |CleanLetters(key)|))
    ensures |CleanLetters(message)| % |CleanLetters(key)| == 0 ==>
              Transpose(Transpose(message, key, true).value, key, false) == Text(CleanLetters(message))
  {
    var p := CleanLetters(message);
    var k := CleanLetters(key);
    EncryptKeepsLetters(p, k);
    LettersOnlyCleanOfLetters(EncryptText(p, k));
    DecryptEncrypt(p, k);
    if |p| % |k| == 0 {
      PaddedFullRows(p, |k|);
    }
  }

  lemma PaddedHello()
    ensures Padded("HELLO", 2) == "HELLOX"
  {
    assert Rows(5, 2) == 3;
  }

  lemma EncryptHello()
    ensures EncryptText("HELLO", "BA") == "ELXHLO"
  {
    ColumnOrderBA();
    PaddedHello();
    assert Rows(5, 2) == 3;
  }

  /** A short ciphertext fills the columns in reading order until it runs
      out: with key `BA`, column 1 takes `A` and `B`, column 0 takes `C`, and
      the rows read `CA` then `B`. */
  lemma DecryptShort()
    ensures DecryptText("ABC", "BA") == "CAB"
  {
    DecryptCellsShort("ABC", "BA");
  }

  lemma DecryptCellsShort(c: string, key: string)
    requires c == "ABC" && key == "BA"
    ensures DecryptCells(c, key) == ["C", "A", "", "B"]
  {
    RowSourcesBA(key);
    assert Rows(3, 2) == 2;
    var cells := DecryptCells(c, key);
    var order := ColumnOrder(key);
    assert cells[0] == Slot(c, order, 2, 0);
    assert cells[1] == Slot(c, order, 2, 1);
    assert cells[2] == Slot(c, order, 2, 2);
    assert cells[3] == Slot(c, order, 2, 3);
  }

  /** With two rows and key `BA`, the cells in row order take ciphertext
      positions 2, 0, 3, 1. */
  lemma RowSourcesBA(key: string)
    requires key == "BA"
    ensures RowSource(ColumnOrder(key), 2, 0) == 2 && RowSource(ColumnOrder(key), 2, 1) == 0
    ensures RowSource(ColumnOrder(key), 2, 2) == 3 && RowSource(ColumnOrder(key), 2, 3) == 1
  {
    ColumnOrderBA();
    var order := ColumnOrder(key);
    assert Rank(order, 0) == 1 && Rank(order, 1) == 0;
  }

  /** The literal texts of the examples are letters only. */
  lemma LetterLiterals()
    ensures IsLetters("HELLO") && IsLetters("BA") && IsLetters("ELXHLO") && IsLetters("ABC")
  {
  }

  lemma CleanLettersHello()
    ensures CleanLetters("HELLO") == "HELLO"
  {
    LetterLiterals();
    LettersOnlyCleanOfLetters("HELLO");
  }

  lemma CleanLettersBA()
    ensures CleanLetters("BA") == "BA"
  {
    LetterLiterals();
    LettersOnlyCleanOfLetters("BA");
  }

  lemma CleanLettersCipher()
    ensures CleanLetters("ELXHLO") == "ELXHLO"
  {
    LetterLiterals();
    LettersOnlyCleanOfLetters("ELXHLO");
  }

  lemma CleanLettersABC()
    ensures CleanLetters("ABC") == "ABC"
  {
    LetterLiterals();
    LettersOnlyCleanOfLetters("ABC");
  }

  /** `HELLO` under the key `BA`: two columns, three rows, one `X` of
      padding. */
  lemma EncryptExample()
    ensures Encrypt("HELLO", "BA") == Text("ELXHLO")
  {
    CleanLettersHello();
    CleanLettersBA();
    EncryptHello();
  }

  /** Decrypting that ciphertext gives the padded letters back. */
  lemma DecryptExample()
    ensures Decrypt("ELXHLO", "BA") == Text("HELLOX")
  {
    CleanLettersCipher();
    CleanLettersBA();
    EncryptHello();
    DecryptEncrypt("HELLO", "BA");
    PaddedHello();
  }

  /** A ciphertext shorter than its grid is decrypted as it comes. */
  lemma DecryptShortExample()
    ensures Decrypt("ABC", "BA") == Text("CAB")
  {
    CleanLettersABC();
    CleanLettersBA();
    DecryptShort();
  }

  /** A message without letters fills no row, so its ciphertext is empty. */
  lemma EncryptNoLetters(message: string, key: string)
    requires CleanLetters(key) != [] && CleanLetters(message) == []
    ensures Encrypt(message, key) == Text([])
  {
    assert Rows(0, |CleanLetters(key)|) == 0;
  }

  /** A key with no letters is an error in both directions. */
  lemma EncryptEmptyKey()
    ensures Transpose("HELLO", "", true) == KeyError
  {
  }

  lemma DigitsKeyLetters()
    ensures CleanLetters("123") == []
  {
    assert Clean("123") == "123";
  }

  lemma DecryptDigitsKey()
    ensures Transpose("HELLO", "123", false) == KeyError
  {
    DigitsKeyLetters();
  }
}
