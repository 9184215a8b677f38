/** The fixed 26-letter alphabet every cipher indexes into, the remainder
    operation of the JavaScript engine, the never-negative `modulo` built on
    it, and the result type shared by the keyed ciphers. */
module Alphabet {

  import Arith

  /** `alfabeto`: the index space 0..25 of every substitution cipher. */
  const Letters: string := "ABCDEFGHIJKLMNOPQRSTUVWXYZ"

  /** `reverso`: the Atbash substitution table. */
  const Reversed: string := "ZYXWVUTSRQPONMLKJIHGFEDCBA"

  /** A letter is a character that `alfabeto.indexOf` finds. */
  predicate IsLetter(c: char) {
    'A' <= c <= 'Z'
  }

  /** The letter at alphabet position `p`. */
  function LetterAt(p: int): (c: char)
    requires 0 <= p < 26
    ensures IsLetter(c)
  {
    ('A' as int + p) as char
  }

  lemma LettersInOrder()
    ensures |Letters| == 26 && |Reversed| == 26
    ensures forall p :: 0 <= p < 26 ==> Letters[p] == LetterAt(p)
    ensures forall p :: 0 <= p < 26 ==> Reversed[p] == LetterAt(25 - p)
  {
  }

  /** `alfabeto.indexOf(c)`: the position of `c` in the alphabet, or -1 when
      `c` is not one of its letters. */
  function IndexOf(c: char): (p: int)
    ensures IsLetter(c) ==> 0 <= p < 26 && LetterAt(p) == c
    ensures !IsLetter(c) ==> p == -1
  {
    if IsLetter(c) then c as int - 'A' as int else -1
  }

  /** `IndexOf` agrees with searching the `alfabeto` table itself. */
  lemma IndexOfFindsLetter(c: char)
    ensures IndexOf(c) == -1 <==> c !in Letters
    ensures IndexOf(c) != -1 ==> Letters[IndexOf(c)] == c
  {
    LettersInOrder();
    if c in Letters {
      var p :| 0 <= p < 26 && Letters[p] == c;
      assert LetterAt(p) == c;
    }
  }

  /** A letter is determined by its position. */
  lemma IndexOfInjective(a: char, b: char)
    requires IsLetter(a) && IsLetter(b) && IndexOf(a) == IndexOf(b)
    ensures a == b
  {
  }

  /** JavaScript's `n % m`: the sign follows the dividend, so a negative `n`
      gives a remainder in (-m, 0]. */
  function JsRem(n: int, m: int): (r: int)
    requires m > 0
    ensures -m < r < m
    ensures n >= 0 ==> r >= 0
    ensures n <= 0 ==> r <= 0
    ensures (n - r) % m == 0
  {
    if n >= 0 then
      var q := n / m;
      assert n - n % m == q * m + 0;
      Arith.DivModUnique(q * m + 0, m, q, 0);
      n % m
    else
      var q := (-n) / m;
      assert n - -((-n) % m) == (-q) * m + 0;
      Arith.DivModUnique((-q) * m + 0, m, -q, 0);
      -((-n) % m)
  }

  /** `modulo(n, m) = ((n % m) + m) % m` with JavaScript's `%`. */
  function Modulo(n: int, m: int): (r: int)
    requires m > 0
    ensures 0 <= r < m
    ensures r == n % m
  {
    var j := JsRem(n, m);
    var q := (n - j) / m;
    assert n - j == q * m + 0;
    assert n == (j + m) + (q - 1) * m;
    Arith.ModAddMultiple(j + m, q - 1, m);
    JsRem(j + m, m)
  }

  /** Adding whole multiples of the modulus does not change `modulo`. */
  lemma {:induction false} ModuloPeriodic(n: int, t: int, m: int)
    requires m > 0
    ensures Modulo(n + t * m, m) == Modulo(n, m)
  {
    Arith.ModAddMultiple(n, t, m);
  }

  /** The letter `d` places after `c`, wrapping around the alphabet in both
      directions; `ShiftReadsTable` shows it is the source's lookup
      `alfabeto[modulo(indexOf(c) + d, 26)]`. */
  function Shift(c: char, d: int): (r: char)
    requires IsLetter(c)
    ensures IsLetter(r)
    ensures IndexOf(r) == Modulo(IndexOf(c) + d, 26)
  {
    LetterAt(Modulo(IndexOf(c) + d, 26))
  }

  lemma ShiftReadsTable(c: char, d: int)
    requires IsLetter(c)
    ensures Shift(c, d) == Letters[Modulo(IndexOf(c) + d, 26)]
  {
    LettersInOrder();
  }

  /** Shifts that differ by whole turns of the alphabet agree. */
  lemma ShiftPeriodic(c: char, d: int, turns: int)
    requires IsLetter(c)
    ensures Shift(c, d + 26 * turns) == Shift(c, d)
  {
    assert IndexOf(c) + (d + 26 * turns) == (IndexOf(c) + d) + turns * 26;
    ModuloPeriodic(IndexOf(c) + d, turns, 26);
  }

  /** Shifting back by the same amount undoes a shift. */
  lemma ShiftInverse(c: char, d: int)
    requires IsLetter(c)
    ensures Shift(Shift(c, d), -d) == c
  {
    var p := IndexOf(c);
    var e := Shift(c, d);
    var q := IndexOf(e);
    var t := (p + d) / 26;
    assert p + d == t * 26 + q;
    assert q + -d == p + (-t) * 26;
    Arith.ModAddMultiple(p, -t, 26);
    Arith.DivModUnique(p, 26, 0, p);
    assert IndexOf(Shift(e, -d)) == p;
  }

  /** The letter at the mirrored position `25 - p`; `ReflectReadsTable` shows
      it is the source's lookup `reverso[indexOf(c)]`. */
  function Reflect(c: char): (r: char)
    requires IsLetter(c)
    ensures IsLetter(r)
    ensures IndexOf(r) == 25 - IndexOf(c)
  {
    LetterAt(25 - IndexOf(c))
  }

  lemma ReflectReadsTable(c: char)
    requires IsLetter(c)
    ensures Reflect(c) == Reversed[IndexOf(c)]
  {
    LettersInOrder();
  }

  /** Mirroring twice gives the letter back. */
  lemma ReflectInvolution(c: char)
    requires IsLetter(c)
    ensures Reflect(Reflect(c)) == c
  {
    IndexOfInjective(Reflect(Reflect(c)), c);
  }

  /** What the keyed ciphers return: the source signals a key with no letters
      by returning an error message string instead of a ciphertext; here that
      case is its own variant. */
  datatype CipherResult = Text(value: string) | KeyError
}
