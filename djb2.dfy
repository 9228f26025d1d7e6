/**
 * Daniel J. Bernstein's "djb2" string hash as the sensor computes it, over
 * `unsigned long` words of 64 bits (the LP64 data model).
 *
 * A word is an integer in [0, 2^64). C defines unsigned `<<` and `+` as the
 * mathematical result reduced modulo 2^64, so both are written out with an
 * explicit reduction here.
 */
module Djb2 {

  const WordBits: nat := 64
  const WordModulus: int := 0x1_0000_0000_0000_0000

  /** The values of a 64-bit `unsigned long`. */
  type Word = x: int | 0 <= x < WordModulus

  /** The values of an `unsigned char`: the hash reads every input byte through that cast. */
  type Byte = x: int | 0 <= x < 256

  /** The initial value of the accumulator. */
  const Seed: Word := 5381

  function Pow2(k: nat): (r: nat)
    ensures r >= 1
  {
    if k == 0 then 1 else 2 * Pow2(k - 1)
  }

  /** Unsigned left shift: the bits shifted past bit 63 are lost. */
  function ShiftLeft(h: Word, k: nat): Word
  {
    (h * Pow2(k)) % WordModulus
  }

  /** Unsigned addition with wrap-around. */
  function WrapAdd(a: Word, b: Word): Word
  {
    (a + b) % WordModulus
  }

  lemma ModAddLeft(a: int, c: int)
    ensures (a % WordModulus + c) % WordModulus == (a + c) % WordModulus
  {
  }

  /**
   * One iteration of the hash loop, `((hash << 5) + hash) + byte`, wrapped
   * at every operator as C does. Its contract is the textbook form of the
   * step: multiply by 33 and add the byte, modulo 2^64.
   */
  function Step(h: Word, b: Byte): (r: Word)
    ensures r == (h * 33 + b) % WordModulus
  {
    assert Pow2(5) == 32;
    ModAddLeft(h * 32, h);
    ModAddLeft(h * 32 + h, b);
    WrapAdd(WrapAdd(ShiftLeft(h, 5), h), b)
  }

  /** The hash loop started from accumulator `h`, consuming `s` front to back. */
  function HashFrom(h: Word, s: seq<Byte>): Word
    decreases |s|
  {
    if s == [] then h else HashFrom(Step(h, s[0]), s[1..])
  }

  /** The djb2 hash of a whole byte sequence. */
  function Hash(s: seq<Byte>): Word
  {
    HashFrom(Seed, s)
  }

  /** Hashing `s + t` is hashing `s` and then carrying on with `t` from there. */
  lemma {:induction false} HashFromConcat(h: Word, s: seq<Byte>, t: seq<Byte>)
    ensures HashFrom(h, s + t) == HashFrom(HashFrom(h, s), t)
    decreases |s|
  {
    if s != [] {
      assert (s + t)[0] == s[0];
      assert (s + t)[1..] == s[1..] + t;
      HashFromConcat(Step(h, s[0]), s[1..], t);
    } else {
      assert s + t == t;
    }
  }

  /** Incremental form: one more byte is one more step. */
  lemma {:induction false} HashSnoc(s: seq<Byte>, b: Byte)
    ensures Hash(s + [b]) == Step(Hash(s), b)
  {
    HashFromConcat(Seed, s, [b]);
    assert [b][1..] == [];
  }

  /**
   * The hash as it is usually published: start at 5381 and, for each byte c
   * in turn, replace h by h * 33 + c, all modulo 2^64.
   */
  function ModularHash(s: seq<Byte>): int
  {
    if s == [] then 5381 else (ModularHash(s[..|s| - 1]) * 33 + s[|s| - 1]) % WordModulus
  }

  /** The shift-and-add loop computes the published hash, and it stays a 64-bit word. */
  lemma {:induction false} HashIsModularHash(s: seq<Byte>)
    ensures Hash(s) == ModularHash(s)
    ensures 0 <= ModularHash(s) < WordModulus
  {
    if s != [] {
      var init, last := s[..|s| - 1], s[|s| - 1];
      assert s == init + [last];
      HashIsModularHash(init);
      HashSnoc(init, last);
    }
  }
}
