/** `cifradoVigenere`: each letter of the normalised message is shifted by the
    alphabet position of the current key letter; the key position advances
    only when a letter has been processed. */
module Vigenere {

  import opened Alphabet
  import opened Normalizer

  /** The shift the key letter at running index `keyIndex` contributes,
      negated when decrypting (cifrados.js:93-100). It never exceeds one turn
      of the alphabet, and for a key of letters it moves forward when
      encrypting and backward when decrypting. */
  function KeyShift(key: string, keyIndex: nat, encrypt: bool): (d: int)
    requires |key| > 0
    ensures -25 <= d <= 25
    ensures IsLetters(key) && encrypt ==> 0 <= d
    ensures IsLetters(key) && !encrypt ==> d <= 0
  {
    var p := IndexOf(key[keyIndex % |key|]);
    if encrypt then p else -p
  }

  /** What one character of the message becomes when the key index is
      `keyIndex`: a letter is shifted by the key letter, anything else is
      copied. */
  function Encode(c: char, key: string, keyIndex: nat, encrypt: bool): (r: char)
    requires |key| > 0
    ensures IsLetter(r) <==> IsLetter(c)
    ensures !IsLetter(c) ==> r == c
  {
    if IsLetter(c) then Shift(c, KeyShift(key, keyIndex, encrypt)) else c
  }

  /** The key index in force at position `i` of `s`: one step for every
      letter before `i`, none for any other character. */
  function KeyIndex(s: string, i: nat): (k: nat)
    requires i <= |s|
    ensures k <= i
  {
    CountLetters(s[..i])
  }

  /** The output of the loop of cifrados.js:87-110, position by position. */
  function VigenereText(s: string, key: string, encrypt: bool): (r: string)
    requires |key| > 0
    ensures |r| == |s|
    ensures forall i {:trigger r[i]} :: 0 <= i < |s| ==> (IsLetter(r[i]) <==> IsLetter(s[i]))
    ensures forall i {:trigger r[i]} :: 0 <= i < |s| && !IsLetter(s[i]) ==> r[i] == s[i]
  {
    seq(|s|, i requires 0 <= i < |s| => Encode(s[i], key, KeyIndex(s, i), encrypt))
  }

  /** The key index moves on by one exactly at a letter. */
  lemma KeyIndexStep(s: string, i: nat)
    requires i < |s|
    ensures KeyIndex(s, i + 1) == KeyIndex(s, i) + (if IsLetter(s[i]) then 1 else 0)
  {
    assert s[..i + 1] == s[..i] + [s[i]];
    CountLettersAppend(s[..i], [s[i]]);
  }

  /** The loop of cifrados.js:87-110 as written, with its running key index
      `indiceClave`. */
  method VigenereLoop(s: string, key: string, encrypt: bool) returns (r: string)
    requires |key| > 0
    ensures r == VigenereText(s, key, encrypt)
  {
    r := [];
    var keyIndex: nat := 0;
    var i := 0;
    while i < |s|
      invariant 0 <= i <= |s| && |r| == i
      invariant keyIndex == KeyIndex(s, i)
      invariant forall j :: 0 <= j < i ==> r[j] == VigenereText(s, key, encrypt)[j]
    {
      KeyIndexStep(s, i);
      if IsLetter(s[i]) {
        r := r + [Shift(s[i], KeyShift(key, keyIndex, encrypt))];
        keyIndex := keyIndex + 1;
      } else {
        r := r + [s[i]];
      }
      i := i + 1;
    }
  }

  /** Two texts with letters at the same positions hold the same number of
      letters. */
  lemma {:induction false} CountLettersSamePositions(x: string, y: string)
    requires |x| == |y|
    requires forall i :: 0 <= i < |x| ==> (IsLetter(x[i]) <==> IsLetter(y[i]))
    ensures CountLetters(x) == CountLetters(y)
  {
    if x != [] {
      CountLettersSamePositions(x[1..], y[1..]);
    }
  }

  /** The output has its letters where the input has them, so at every
      position both passes use the same key index. */
  lemma KeyIndexKept(s: string, key: string, encrypt: bool, i: nat)
    requires |key| > 0 && i <= |s|
    ensures KeyIndex(VigenereText(s, key, encrypt), i) == KeyIndex(s, i)
  {
    var r := VigenereText(s, key, encrypt);
    CountLettersSamePositions(r[..i], s[..i]);
  }

  /** `cifradoVigenere(mensaje, clave, cifrar)`. A key without letters is an
      error and produces no text. Otherwise the output is as long as the
      normalised message, copies its non-letters in place, and shifts the
      letter at position `i` by the key letter at index (letters before `i`)
      modulo the key length. */
  function Vigenere(message: string, key: string, encrypt: bool): (r: CipherResult)
    ensures r.KeyError? <==> CleanLetters(key) == []
    ensures r.Text? ==> |r.value| == |Clean(message)|
    ensures r.Text? ==> forall i {:trigger r.value[i]} :: 0 <= i < |r.value| && IsLetter(Clean(message)[i]) ==>
              r.value[i] == Shift(Clean(message)[i],
                                  KeyShift(CleanLetters(key), CountLetters(Clean(message)[..i]), encrypt))
    ensures r.Text? ==> forall i {:trigger r.value[i]} :: 0 <= i < |r.value| && !IsLetter(Clean(message)[i]) ==>
              r.value[i] == Clean(message)[i]
  {
    var k := CleanLetters(key);
    if |k| == 0 then KeyError else Text(VigenereText(Clean(message), k, encrypt))
  }

  /** Undoing the shifts with the same key gives the text back: both passes
      see letters at the same positions, so their key indices stay in step. */
  lemma VigenereTextInverse(s: string, key: string)
    requires |key| > 0
    ensures VigenereText(VigenereText(s, key, true), key, false) == s
  {
    var r := VigenereText(s, key, true);
    var t := VigenereText(r, key, false);
    forall i | 0 <= i < |s|
      ensures t[i] == s[i]
    {
      KeyIndexKept(s, key, true, i);
      if IsLetter(s[i]) {
        ShiftInverse(s[i], KeyShift(key, KeyIndex(s, i), true));
      }
    }
  }

  /** A Vigenère output is normalised text. */
  lemma VigenereTextIsClean(s: string, key: string, encrypt: bool)
    requires |key| > 0
    requires IsClean(s)
    ensures IsClean(VigenereText(s, key, encrypt))
  {
    var r := VigenereText(s, key, encrypt);
    forall i | 0 <= i < |r|
      ensures !IsLower(r[i])
    {
      assert r[i] == Encode(s[i], key, KeyIndex(s, i), encrypt);
    }
  }

  /** Decrypting with the key used to encrypt recovers the normalised message. */
  lemma VigenereRoundTrip(message: string, key: string)
    requires CleanLetters(key) != []
    ensures Vigenere(message, key, true).Text?
    ensures Vigenere(Vigenere(message, key, true).value, key, false) == Text(Clean(message))
  {
    var k := CleanLetters(key);
    var c := VigenereText(Clean(message), k, true);
    VigenereTextIsClean(Clean(message), k, true);
    CleanFixesExactlyClean(c);
    VigenereTextInverse(Clean(message), k);
  }

  lemma KeyBC()
    ensures IsLetters("BC")
  {
  }

  /** The key indices of `A B`: the space uses up no key position. */
  lemma KeyIndicesSpace(s: string)
    requires s == "A B"
    ensures KeyIndex(s, 0) == 0 && KeyIndex(s, 1) == 1 && KeyIndex(s, 2) == 1
  {
    KeyIndexStep(s, 0);
    KeyIndexStep(s, 1);
    assert s[..0] == [];
  }

  /** Key `BC` shifts by 1 at even key indices and by 2 at odd ones. */
  lemma EncodeWithBC(key: string)
    requires key == "BC"
    ensures Encode('A', key, 0, true) == 'B' && Encode('B', key, 1, true) == 'D'
  {
    assert IndexOf(key[0]) == 1 && IndexOf(key[1]) == 2;
  }

  lemma ExampleSpace()
    ensures VigenereText("A B", "BC", true) == "B D"
  {
    var s := "A B";
    var key := "BC";
    KeyIndicesSpace(s);
    EncodeWithBC(key);
    var r := VigenereText(s, key, true);
    assert r[0] == Encode('A', key, 0, true);
    assert r[1] == ' ';
    assert r[2] == Encode('B', key, 1, true);
  }

  lemma CleanLettersBC()
    ensures CleanLetters("BC") == "BC"
  {
    KeyBC();
    LettersOnlyCleanOfLetters("BC");
  }

  /** A message whose space consumes no key letter. */
  lemma VigenereExample()
    ensures Vigenere("A B", "BC", true) == Text("B D")
  {
    ExampleSpace();
    CleanFixesExactlyClean("A B");
    CleanLettersBC();
  }

  /** A key without letters is an error. */
  lemma VigenereEmptyKey()
    ensures Vigenere("HELLO", "", true) == KeyError
  {
  }
}
