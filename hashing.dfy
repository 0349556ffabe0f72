/**
 * The string hash shared by both hash tables: a polynomial rolling hash
 * evaluated by Horner's method, base 31, reduced modulo 127 after every
 * character. Hashtable.py and HashTable.py carry identical copies.
 */
module Hashing {

  /** `small_prime` / `SMALL_PRIME`. */
  const SmallPrime: nat := 31
  /** `ascii_length` / `ASCII_LENGTH`: the number of table slots. */
  const AsciiLength: nat := 127

  /** One step of the loop: `key = (small_prime * key + ord(char)) % ascii_length`. */
  function Step(h: int, c: char): int
  {
    (SmallPrime * h + c as int) % AsciiLength
  }

  /** The loop as a left fold over the characters, starting from `h`. */
  function HashFrom(h: int, s: string): (r: int)
    requires 0 <= h < AsciiLength
    ensures 0 <= r < AsciiLength
    ensures s == [] ==> r == h
    decreases |s|
  {
    if s == [] then h else HashFrom(Step(h, s[0]), s[1..])
  }

  /** `calcKey(s)`: the fold from 0, always a valid slot index. */
  function Hash(s: string): (r: nat)
    ensures r < AsciiLength
    ensures s == [] ==> r == 0
  {
    HashFrom(0, s)
  }

  /** The hash as a number: the characters' code points as digits in base 31. */
  function Polynomial(s: string): int
  {
    if s == [] then 0 else SmallPrime * Polynomial(s[..|s| - 1]) + s[|s| - 1] as int
  }

  /** `calcKey`: the accumulator loop. */
  method CalcKey(s: string) returns (key: nat)
    ensures key < AsciiLength
    ensures key == Hash(s)
  {
    key := 0;
    for i := 0 to |s|
      invariant key < AsciiLength
      invariant HashFrom(key, s[i..]) == Hash(s)
    {
      assert s[i..][1..] == s[i + 1..];
      key := (SmallPrime * key + s[i] as int) % AsciiLength;
    }
  }

  /** Appending a character performs one more step of the loop. */
  lemma {:induction false} HashFromAppend(h: int, s: string, c: char)
    requires 0 <= h < AsciiLength
    ensures HashFrom(h, s + [c]) == Step(HashFrom(h, s), c)
    decreases |s|
  {
    if s == [] {
      assert ([] + [c])[1..] == [];
    } else {
      assert (s + [c])[1..] == s[1..] + [c];
      HashFromAppend(Step(h, s[0]), s[1..], c);
    }
  }

  lemma HashAppend(s: string, c: char)
    ensures Hash(s + [c]) == (SmallPrime * Hash(s) + c as int) % AsciiLength
  {
    HashFromAppend(0, s, c);
  }

  lemma ModOfMultiplePlus(p: int, c: int)
    ensures (SmallPrime * (p % AsciiLength) + c) % AsciiLength == (SmallPrime * p + c) % AsciiLength
  {
    var q := p / AsciiLength;
    assert p == AsciiLength * q + p % AsciiLength;
    assert SmallPrime * p + c == (SmallPrime * (p % AsciiLength) + c) + AsciiLength * (SmallPrime * q);
  }

  /**
   * Horner's method reduced after every step computes the polynomial
   * reduced once: `calcKey(s) == (sum of ord(s[i]) * 31^(n-1-i)) mod 127`.
   */
  lemma {:induction false} HashIsPolynomial(s: string)
    ensures Hash(s) == Polynomial(s) % AsciiLength
    decreases |s|
  {
    if s != [] {
      var init, c := s[..|s| - 1], s[|s| - 1];
      assert s == init + [c];
      HashIsPolynomial(init);
      HashAppend(init, c);
      ModOfMultiplePlus(Polynomial(init), c as int);
    }
  }
}
