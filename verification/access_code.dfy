/**
  Access-code generation of backend/utils.js `generateCode`: each of `length` characters is
  picked from `A-Z0-9` by `Math.floor(Math.random() * 36)`.

  The random source is replaced by an oracle: `draws[i]` is the index the i-th call of that
  expression produced, so it lies in `[0, 36)`.
 */
module AccessCode {

  /** The 36 characters a code is drawn from, in the order the source lists them. */
  const Alphabet: string := "ABCDEFGHIJKLMNOPQRSTUVWXYZ0123456789"

  /** The length the upload handler asks for. */
  const CodeLength: nat := 15

  /** An upper-case Latin letter or a decimal digit. */
  predicate IsCodeChar(c: char) {
    ('A' <= c <= 'Z') || ('0' <= c <= '9')
  }

  /** A code of the given length made only of code characters. */
  predicate IsCode(code: string, length: nat) {
    |code| == length && forall i :: 0 <= i < |code| ==> IsCodeChar(code[i])
  }

  /** What `Math.floor(Math.random() * 36)` can yield, once per character asked for. */
  predicate ValidDraws(draws: seq<int>, length: nat) {
    length <= |draws| && forall i :: 0 <= i < |draws| ==> 0 <= draws[i] < |Alphabet|
  }

  /** The position of a code character in `Alphabet`, computed from its character class. */
  function AlphabetIndex(c: char): (k: nat)
    requires IsCodeChar(c)
    ensures k < |Alphabet| && Alphabet[k] == c
  {
    if 'A' <= c <= 'Z' then (c - 'A') as nat else (c - '0') as nat + 26
  }

  lemma AlphabetChars(k: nat)
    requires k < |Alphabet|
    ensures IsCodeChar(Alphabet[k]) && AlphabetIndex(Alphabet[k]) == k
  {
  }

  /**
    backend/utils.js `generateCode`: appends one alphabet character per draw. The code has
    the requested length, consists of code characters only, and each character records its
    draw, so distinct draw sequences give distinct codes.
   */
  method GenerateCode(length: nat, draws: seq<int>) returns (code: string)
    requires ValidDraws(draws, length)
    ensures IsCode(code, length)
    ensures forall i :: 0 <= i < length ==> code[i] == Alphabet[draws[i]]
    ensures forall i :: 0 <= i < length ==> AlphabetIndex(code[i]) == draws[i]
  {
    code := "";
    var i := 0;
    while i < length
      invariant 0 <= i <= length
      invariant |code| == i
      invariant forall j :: 0 <= j < i ==> code[j] == Alphabet[draws[j]]
      invariant forall j :: 0 <= j < i ==> IsCodeChar(code[j]) && AlphabetIndex(code[j]) == draws[j]
    {
      AlphabetChars(draws[i]);
      code := code + [Alphabet[draws[i]]];
      i := i + 1;
    }
  }

  /** Two generations agree exactly when their first `length` draws agree. */
  lemma GenerateCodeInjective(length: nat, draws: seq<int>, draws': seq<int>, code: string, code': string)
    requires ValidDraws(draws, length) && ValidDraws(draws', length)
    requires IsCode(code, length) && IsCode(code', length)
    requires forall i :: 0 <= i < length ==> AlphabetIndex(code[i]) == draws[i]
    requires forall i :: 0 <= i < length ==> AlphabetIndex(code'[i]) == draws'[i]
    ensures code == code' <==> draws[..length] == draws'[..length]
  {
    if draws[..length] == draws'[..length] {
      forall i | 0 <= i < length
        ensures code[i] == code'[i]
      {
        assert draws[i] == draws[..length][i] == draws'[..length][i] == draws'[i];
        AlphabetChars(draws[i]);
      }
    }
    if code == code' {
      forall i | 0 <= i < length
        ensures draws[..length][i] == draws'[..length][i]
      {
      }
    }
  }
}
