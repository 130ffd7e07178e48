/**
 * Java's structural hash codes, read as unsigned 32-bit values: `String.hashCode`
 * and `Arrays.deepHashCode` over a grid. Java's `int` arithmetic wraps at every
 * step, which is arithmetic modulo 2^32.
 */
module JavaHash {

  const Modulus: nat := 0x1_0000_0000

  /** Java's 31-polynomial fold over element hashes, starting from `seed`. */
  function Fold(seed: nat, hs: seq<nat>): (h: nat)
    ensures h < Modulus
  {
    if |hs| == 0 then seed % Modulus
    else (31 * Fold(seed, hs[..|hs| - 1]) + hs[|hs| - 1]) % Modulus
  }

  /** `String.hashCode`: the fold from 0 over the character codes. */
  function StringHash(s: string): (h: nat)
    ensures h < Modulus
  {
    Fold(0, seq(|s|, i requires 0 <= i < |s| => s[i] as nat))
  }

  /** `Arrays.deepHashCode` of a `Character[][]`: each row folded from 1, then the rows folded from 1. */
  function CharGridHash(g: seq<seq<char>>): (h: nat)
    ensures h < Modulus
  {
    Fold(1, seq(|g|, i requires 0 <= i < |g| =>
      Fold(1, seq(|g[i]|, j requires 0 <= j < |g[i]| => g[i][j] as nat))))
  }

  /** `Arrays.deepHashCode` of a `String[][]`. */
  function StringGridHash(g: seq<seq<string>>): (h: nat)
    ensures h < Modulus
  {
    Fold(1, seq(|g|, i requires 0 <= i < |g| =>
      Fold(1, seq(|g[i]|, j requires 0 <= j < |g[i]| => StringHash(g[i][j])))))
  }
}
