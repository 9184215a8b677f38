/** `cifradoCesar`: every letter of the normalised message moves `shift`
    places along the alphabet (back when decrypting); other characters stay. */
module Caesar {

  import opened Alphabet
  import opened Normalizer

  /** The per-character loop: letters shifted by `d`, the rest copied. */
  function ShiftText(s: string, d: int): (r: string)
    ensures |r| == |s|
    ensures forall i {:trigger r[i]} :: 0 <= i < |s| && IsLetter(s[i]) ==> r[i] == Shift(s[i], d)
    ensures forall i {:trigger r[i]} :: 0 <= i < |s| && !IsLetter(s[i]) ==> r[i] == s[i]
  {
    if s == [] then []
    else [if IsLetter(s[0]) then Shift(s[0], d) else s[0]] + ShiftText(s[1..], d)
  }

  /** The shift actually applied. */
  function Direction(shift: int, encrypt: bool): int {
    if encrypt then shift else -shift
  }

  /** `cifradoCesar(mensaje, desplazamiento, cifrar)`. The output is as long as
      the normalised message; a letter at position `p` becomes the letter at
      `modulo(p ± shift, 26)` and every other character is copied in place;
      decrypting negates the shift (cifrados.js:37-39). */
  function Caesar(message: string, shift: int, encrypt: bool): (r: string)
    ensures |r| == |Clean(message)|
    ensures IsClean(r)
    ensures forall i {:trigger r[i]} :: 0 <= i < |r| && IsLetter(Clean(message)[i]) ==>
              r[i] == Shift(Clean(message)[i], Direction(shift, encrypt))
    ensures forall i {:trigger r[i]} :: 0 <= i < |r| && !IsLetter(Clean(message)[i]) ==> r[i] == Clean(message)[i]
  {
    ShiftText(Clean(message), Direction(shift, encrypt))
  }

  lemma ShiftTextInverseAt(s: string, d: int, i: int)
    requires 0 <= i < |s|
    ensures ShiftText(ShiftText(s, d), -d)[i] == s[i]
  {
    if IsLetter(s[i]) {
      ShiftInverse(s[i], d);
    }
  }

  /** Shifting by `d` and then by `-d` gives the text back. */
  lemma ShiftTextInverse(s: string, d: int)
    ensures ShiftText(ShiftText(s, d), -d) == s
  {
    forall i | 0 <= i < |s|
      ensures ShiftText(ShiftText(s, d), -d)[i] == s[i]
    {
      ShiftTextInverseAt(s, d, i);
    }
  }

  /** Shifting never produces a lower-case letter, so normalised text stays
      normalised. */
  lemma ShiftTextKeepsClean(s: string, d: int)
    requires IsClean(s)
    ensures IsClean(ShiftText(s, d))
  {
    var t := ShiftText(s, d);
    forall i | 0 <= i < |t|
      ensures !IsLower(t[i])
    {
      if IsLetter(s[i]) {
        assert IsLetter(t[i]);
      }
    }
  }

  /** Undoing a Caesar output with the opposite shift gives back the
      normalised message: the output is already normalised, so the second
      call works on it unchanged. */
  lemma ShiftBack(message: string, d: int, e: int)
    requires d + e == 0
    ensures ShiftText(Clean(ShiftText(Clean(message), d)), e) == Clean(message)
  {
    var s := Clean(message);
    ShiftTextKeepsClean(s, d);
    CleanFixesExactlyClean(ShiftText(s, d));
    ShiftTextInverse(s, d);
    assert e == -d;
  }

  /** Decrypting with the shift used to encrypt recovers the normalised
      message, and so does the opposite order. */
  lemma CaesarRoundTrip(message: string, shift: int)
    ensures Caesar(Caesar(message, shift, true), shift, false) == Clean(message)
    ensures Caesar(Caesar(message, shift, false), shift, true) == Clean(message)
  {
    ShiftBack(message, Direction(shift, true), Direction(shift, false));
    ShiftBack(message, Direction(shift, false), Direction(shift, true));
  }

  /** Any integer shift is valid: shifts that differ by whole turns of the
      alphabet give the same output. */
  lemma CaesarPeriodic(message: string, shift: int, turns: int, encrypt: bool)
    ensures Caesar(message, shift + 26 * turns, encrypt) == Caesar(message, shift, encrypt)
  {
    var a := Caesar(message, shift + 26 * turns, encrypt);
    var b := Caesar(message, shift, encrypt);
    forall i | 0 <= i < |a|
      ensures a[i] == b[i]
    {
      if IsLetter(Clean(message)[i]) {
        if encrypt {
          ShiftPeriodic(Clean(message)[i], shift, turns);
        } else {
          ShiftPeriodic(Clean(message)[i], -shift, -turns);
          assert -(shift + 26 * turns) == -shift + 26 * -turns;
        }
      }
    }
  }

  lemma ShiftHello()
    ensures ShiftText("HELLO", 3) == "KHOOR"
  {
  }

  lemma ShiftKhoor()
    ensures ShiftText("KHOOR", -3) == "HELLO"
  {
  }

  lemma ShiftWithDigits()
    ensures ShiftText("HI 123!", 1) == "IJ 123!"
  {
  }

  /** The literal messages of the examples are already normalised. */
  lemma CleanLiterals()
    ensures IsClean("HELLO") && IsClean("KHOOR") && IsClean("HI 123!")
  {
  }

  /** The worked examples: `HELLO` with shift 3 and a message with a space,
      digits and punctuation. */
  lemma CaesarExamples()
    ensures Caesar("HELLO", 3, true) == "KHOOR"
    ensures Caesar("KHOOR", 3, false) == "HELLO"
    ensures Caesar("HI 123!", 1, true) == "IJ 123!"
  {
    ShiftHello();
    ShiftKhoor();
    ShiftWithDigits();
    CleanLiterals();
    CleanFixesExactlyClean("HELLO");
    CleanFixesExactlyClean("KHOOR");
    CleanFixesExactlyClean("HI 123!");
  }
}
