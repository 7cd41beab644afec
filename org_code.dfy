/**
  Organization codes: six characters drawn from a 36-symbol alphabet. The
  random source is replaced by the sequence of indices it produced, one
  `Math.floor(Math.random() * 36)` per character.
*/
module OrgCode {

  const Alphabet: string := "ABCDEFGHIJKLMNOPQRSTUVWXYZ0123456789"
  const CodeLength: nat := 6

  /** A character of `[A-Z0-9]`. */
  predicate IsCodeChar(c: char) {
    'A' <= c <= 'Z' || '0' <= c <= '9'
  }

  /** A code of the shape `[A-Z0-9]{6}`. */
  predicate IsValidCode(code: string) {
    |code| == CodeLength && forall i :: 0 <= i < |code| ==> IsCodeChar(code[i])
  }

  /** Indices a random draw can produce: each in [0, 36). */
  predicate InAlphabet(draws: seq<nat>) {
    forall i :: 0 <= i < |draws| ==> draws[i] < |Alphabet|
  }

  /** The code spelled by a sequence of draws, one `chars.charAt(k)` each. */
  function CodeOf(draws: seq<nat>): (code: string)
    requires InAlphabet(draws)
    ensures |code| == |draws|
    ensures forall i :: 0 <= i < |draws| ==> code[i] == Alphabet[draws[i]]
  {
    seq(|draws|, i requires 0 <= i < |draws| => Alphabet[draws[i]])
  }

  /** The index of a code character in the alphabet (inverse of `charAt`). */
  function IndexOf(c: char): (k: nat)
    requires IsCodeChar(c)
    ensures k < |Alphabet| && Alphabet[k] == c
  {
    AlphabetIsLettersThenDigits();
    if 'A' <= c <= 'Z' then c as int - 'A' as int else c as int - '0' as int + 26
  }

  /** The alphabet spelled out: the 26 letters in order, then the 10 digits in order. */
  lemma AlphabetIsLettersThenDigits()
    ensures |Alphabet| == 36
    ensures forall k :: 0 <= k < 26 ==> Alphabet[k] as int == 'A' as int + k
    ensures forall k :: 26 <= k < 36 ==> Alphabet[k] as int == '0' as int + k - 26
  {
  }

  /** Every alphabet symbol is in `[A-Z0-9]`, and each one is found back at its own index. */
  lemma AlphabetShape()
    ensures |Alphabet| == 36
    ensures forall k :: 0 <= k < |Alphabet| ==> IsCodeChar(Alphabet[k]) && IndexOf(Alphabet[k]) == k
  {
    AlphabetIsLettersThenDigits();
  }

  /**
    `generateOrgCode` / the loop of `regenerateCode`: append one alphabet
    character per draw, six times.
  */
  method GenerateOrgCode(draws: seq<nat>) returns (code: string)
    requires |draws| == CodeLength && InAlphabet(draws)
    ensures code == CodeOf(draws)
    ensures IsValidCode(code)
  {
    AlphabetShape();
    code := "";
    var i := 0;
    while i < CodeLength
      invariant 0 <= i <= CodeLength
      invariant code == CodeOf(draws[..i])
      invariant IsValidCode(code + CodeOf(draws[i..]))
    {
      code := code + [Alphabet[draws[i]]];
      i := i + 1;
    }
    assert draws[..i] == draws;
  }

  /** Every generated code matches `[A-Z0-9]{6}`. */
  lemma GeneratedCodesAreValid(draws: seq<nat>)
    requires |draws| == CodeLength && InAlphabet(draws)
    ensures IsValidCode(CodeOf(draws))
  {
    AlphabetShape();
  }

  /** Every code of the shape `[A-Z0-9]{6}` is produced by exactly one sequence of draws. */
  lemma EveryValidCodeIsDrawn(code: string)
    requires IsValidCode(code)
    ensures var draws := seq(|code|, i requires 0 <= i < |code| => IndexOf(code[i]));
      InAlphabet(draws) && CodeOf(draws) == code
  {
  }

  /** Different draws give different codes. */
  lemma CodeOfInjective(a: seq<nat>, b: seq<nat>)
    requires InAlphabet(a) && InAlphabet(b)
    requires CodeOf(a) == CodeOf(b)
    ensures a == b
  {
    AlphabetShape();
    assert |a| == |b|;
    forall i | 0 <= i < |a|
      ensures a[i] == b[i]
    {
      assert Alphabet[a[i]] == CodeOf(a)[i] == CodeOf(b)[i] == Alphabet[b[i]];
      assert a[i] == IndexOf(Alphabet[a[i]]) == IndexOf(Alphabet[b[i]]) == b[i];
    }
  }
}
