/** `cifradoAtbash`: every letter of the normalised message is replaced by the
    letter at the mirrored alphabet position; other characters stay. */
module Atbash {

  import opened Alphabet
  import opened Normalizer

  /** The per-character loop of cifrados.js:253-262. */
  function MirrorText(s: string): (r: string)
    ensures |r| == |s|
    ensures forall i {:trigger r[i]} :: 0 <= i < |s| && IsLetter(s[i]) ==> r[i] == Reflect(s[i])
    ensures forall i {:trigger r[i]} :: 0 <= i < |s| && !IsLetter(s[i]) ==> r[i] == s[i]
  {
    if s == [] then []
    else [if IsLetter(s[0]) then Reflect(s[0]) else s[0]] + MirrorText(s[1..])
  }

  /** `cifradoAtbash(mensaje)`: as long as the normalised message; a letter at
      position `p` becomes the letter at `25 - p` and every other character is
      copied in place. */
  function Atbash(message: string): (r: string)
    ensures |r| == |Clean(message)|
    ensures IsClean(r)
    ensures forall i {:trigger r[i]} :: 0 <= i < |r| && IsLetter(Clean(message)[i]) ==>
              IsLetter(r[i]) && IndexOf(r[i]) == 25 - IndexOf(Clean(message)[i])
    ensures forall i {:trigger r[i]} :: 0 <= i < |r| && !IsLetter(Clean(message)[i]) ==>
              r[i] == Clean(message)[i]
  {
    MirrorText(Clean(message))
  }

  lemma MirrorTextInvolution(s: string)
    ensures MirrorText(MirrorText(s)) == s
  {
    var r := MirrorText(MirrorText(s));
    forall i | 0 <= i < |s|
      ensures r[i] == s[i]
    {
      if IsLetter(s[i]) {
        ReflectInvolution(s[i]);
      }
    }
  }

  /** Atbash is its own inverse: applying it twice gives the normalised
      message. */
  lemma AtbashInvolution(message: string)
    ensures Atbash(Atbash(message)) == Clean(message)
  {
    CleanFixesExactlyClean(MirrorText(Clean(message)));
    MirrorTextInvolution(Clean(message));
  }

  lemma MirrorHello()
    ensures MirrorText("HELLO") == "SVOOL"
  {
  }

  lemma CleanMixed()
    ensures Clean("az 1!") == "AZ 1!"
  {
  }

  lemma MirrorMixed()
    ensures MirrorText("AZ 1!") == "ZA 1!"
  {
  }

  /** `HELLO` becomes `SVOOL`; lower-case input is normalised first and
      non-letters stay in place. */
  lemma AtbashExamples()
    ensures Atbash("HELLO") == "SVOOL"
    ensures Atbash("az 1!") == "ZA 1!"
  {
    MirrorHello();
    CleanFixesExactlyClean("HELLO");
    CleanMixed();
    MirrorMixed();
  }
}
