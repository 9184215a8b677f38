/** `limpiarTexto` and the letters-only filter `replace(/[^A-Z]/g, "")`.

    The normaliser is modelled on ASCII: a lower-case letter `a`..`z` becomes
    its upper-case letter and every other character is kept as it is. */
module Normalizer {

  import opened Alphabet

  predicate IsLower(c: char) {
    'a' <= c <= 'z'
  }

  /** `toUpperCase` on one character, restricted to ASCII. */
  function Upper(c: char): char {
    if IsLower(c) then (c as int - 'a' as int + 'A' as int) as char else c
  }

  /** Normalised text: no lower-case letter is left. */
  predicate IsClean(s: string) {
    forall i :: 0 <= i < |s| ==> !IsLower(s[i])
  }

  /** Only alphabet letters. */
  predicate IsLetters(s: string) {
    forall i :: 0 <= i < |s| ==> IsLetter(s[i])
  }

  /** `limpiarTexto`: the text with every lower-case letter raised to the
      upper-case letter at the same alphabet position, everything else kept in
      place. */
  function Clean(s: string): (r: string)
    ensures |r| == |s|
    ensures IsClean(r)
    ensures forall i {:trigger r[i]} :: 0 <= i < |s| && IsLower(s[i]) ==>
              r[i] == LetterAt(s[i] as int - 'a' as int)
    ensures forall i {:trigger r[i]} :: 0 <= i < |s| && !IsLower(s[i]) ==> r[i] == s[i]
  {
    if s == [] then [] else [Upper(s[0])] + Clean(s[1..])
  }

  /** Normalising leaves exactly the normalised texts unchanged. */
  lemma {:induction false} CleanFixesExactlyClean(s: string)
    ensures Clean(s) == s <==> IsClean(s)
  {
    if IsClean(s) {
      var r := Clean(s);
      assert forall i :: 0 <= i < |s| ==> r[i] == s[i];
    }
  }

  /** `limpiarTexto` is idempotent. */
  lemma CleanIdempotent(s: string)
    ensures Clean(Clean(s)) == Clean(s)
  {
    CleanFixesExactlyClean(Clean(s));
  }

  /** Number of alphabet letters in `s`. */
  function CountLetters(s: string): (n: nat)
    ensures n <= |s|
  {
    if s == [] then 0 else (if IsLetter(s[0]) then 1 else 0) + CountLetters(s[1..])
  }

  lemma {:induction false} CountLettersAppend(a: string, b: string)
    ensures CountLetters(a + b) == CountLetters(a) + CountLetters(b)
  {
    if a == [] {
      assert a + b == b;
    } else {
      assert (a + b)[1..] == a[1..] + b;
      CountLettersAppend(a[1..], b);
    }
  }

  /** `replace(/[^A-Z]/g, "")`: every alphabet letter of `s`, in order, with
      every other character dropped. */
  function LettersOnly(s: string): (r: string)
    ensures IsLetters(r)
    ensures |r| == CountLetters(s)
    ensures forall c :: IsLetter(c) ==> multiset(r)[c] == multiset(s)[c]
    ensures forall c :: !IsLetter(c) ==> c !in r
  {
    if s == [] then []
    else
      assert s == [s[0]] + s[1..];
      if IsLetter(s[0]) then [s[0]] + LettersOnly(s[1..]) else LettersOnly(s[1..])
  }

  /** The filter keeps exactly the letters-only texts unchanged. */
  lemma {:induction false} LettersOnlyFixesExactlyLetters(s: string)
    ensures LettersOnly(s) == s <==> IsLetters(s)
  {
    if s != [] {
      LettersOnlyFixesExactlyLetters(s[1..]);
      if !IsLetter(s[0]) {
        assert |LettersOnly(s)| <= |s[1..]|;
      }
    }
  }

  /** The filter works piece by piece: filtering a concatenation concatenates
      the filtered pieces, so it neither reorders nor merges characters. */
  lemma {:induction false} LettersOnlyAppend(a: string, b: string)
    ensures LettersOnly(a + b) == LettersOnly(a) + LettersOnly(b)
  {
    if a == [] {
      assert a + b == b;
    } else {
      assert (a + b)[1..] == a[1..] + b;
      LettersOnlyAppend(a[1..], b);
    }
  }

  /** `limpiarTexto(clave).replace(/[^A-Z]/g, "")`: the usable part of a key
      (and, for the transposition, of a message). */
  function CleanLetters(s: string): (k: string)
    ensures IsLetters(k)
    ensures |k| == CountLetters(Clean(s))
  {
    LettersOnly(Clean(s))
  }

  /** Normalising and filtering a ciphertext that is already upper-case
      letters gives it back unchanged. */
  lemma LettersOnlyCleanOfLetters(s: string)
    requires IsLetters(s)
    ensures LettersOnly(Clean(s)) == s
  {
    CleanFixesExactlyClean(s);
    LettersOnlyFixesExactlyLetters(s);
  }
}
