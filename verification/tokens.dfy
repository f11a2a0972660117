/**
 * Session tokens: `generate_token` draws 16 characters from the alphanumeric alphabet
 * `A-Z a-z 0-9`. The random generator is not modelled; its 16 draws are a parameter,
 * each an index into the alphabet.
 */
module Tokens {

  /** Number of characters in every generated token. */
  const TokenLength: nat := 16

  /** `n` consecutive characters starting at `first`. */
  function CharRange(first: char, n: nat): (r: string)
    requires first as int + n <= 0xD800
    ensures |r| == n
  {
    seq(n, i requires 0 <= i < n => (first as int + i) as char)
  }

  /** The 62 characters the alphanumeric distribution samples from, in its order:
      "ABC...XYZabc...xyz012...789". */
  const Alphabet: string := CharRange('A', 26) + CharRange('a', 26) + CharRange('0', 10)

  /** One draw of the random generator: a position in `Alphabet`. */
  type Draw = k: nat | k < 62

  /** The draws of one call of `generate_token`, one per character. */
  type Draws = s: seq<Draw> | |s| == TokenLength
    witness [0, 0, 0, 0, 0, 0, 0, 0, 0, 0, 0, 0, 0, 0, 0, 0]

  predicate IsAlphanumeric(c: char) {
    'A' <= c <= 'Z' || 'a' <= c <= 'z' || '0' <= c <= '9'
  }

  /** The shape every token has: 16 alphanumeric characters. */
  predicate IsToken(s: string) {
    |s| == TokenLength && forall i :: 0 <= i < |s| ==> IsAlphanumeric(s[i])
  }

  /** Position of an alphanumeric character in `Alphabet`. */
  function IndexOf(c: char): (k: Draw)
    requires IsAlphanumeric(c)
    ensures Alphabet[k] == c
  {
    if 'A' <= c <= 'Z' then (c as int - 'A' as int)
    else if 'a' <= c <= 'z' then 26 + (c as int - 'a' as int)
    else 52 + (c as int - '0' as int)
  }

  /** The alphabet holds exactly the alphanumeric characters, each at one position. */
  lemma AlphabetIsAlphanumeric(k: Draw)
    ensures IsAlphanumeric(Alphabet[k])
    ensures IndexOf(Alphabet[k]) == k
  {
  }

  /** `generate_token`: one alphabet character per draw, collected into a string. */
  function GenerateToken(draws: Draws): (t: string)
    ensures IsToken(t)
  {
    var t := seq(TokenLength, i requires 0 <= i < TokenLength => Alphabet[draws[i]]);
    assert forall i :: 0 <= i < |t| ==> IsAlphanumeric(t[i]) by {
      forall i | 0 <= i < |t| ensures IsAlphanumeric(t[i]) {
        AlphabetIsAlphanumeric(draws[i]);
      }
    }
    t
  }

  /** Different draws give different tokens: no two outcomes of the generator collide. */
  lemma GenerateTokenInjective(a: Draws, b: Draws)
    requires GenerateToken(a) == GenerateToken(b)
    ensures a == b
  {
    forall i | 0 <= i < TokenLength ensures a[i] == b[i] {
      assert GenerateToken(a)[i] == GenerateToken(b)[i];
      AlphabetIsAlphanumeric(a[i]);
      AlphabetIsAlphanumeric(b[i]);
    }
  }

  /** Every 16-character alphanumeric string is the token of some draws. */
  lemma GenerateTokenCovers(t: string)
    requires IsToken(t)
    ensures exists d: Draws :: GenerateToken(d) == t
  {
    var d: Draws := seq(TokenLength, i requires 0 <= i < TokenLength => IndexOf(t[i]));
    assert GenerateToken(d) == t;
  }
}
