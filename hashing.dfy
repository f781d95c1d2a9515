/**
 * The bucket-index function of the hash map: a base-31 rolling polynomial over
 * the UTF-16 code units of a key, reduced modulo the capacity after every unit.
 */
module Hashing {

  /** One UTF-16 code unit, the value that `charCodeAt` yields. */
  newtype CodeUnit = u: int | 0 <= u < 0x1_0000

  /** A JavaScript string is a sequence of UTF-16 code units. */
  type Key = seq<CodeUnit>

  /** The multiplier of the rolling hash (`primeNumber`). */
  const Multiplier: nat := 31

  /**
   * The index `hash(key)` computes for a table of `capacity` buckets: the
   * accumulator starts at 0 and each code unit `c` turns it into
   * `(31 * acc + c) % capacity`.
   */
  function HashOf(key: Key, capacity: nat): (h: nat)
    requires capacity > 0
    ensures h < capacity
    ensures |key| == 0 ==> h == 0
  {
    if |key| == 0 then 0
    else (Multiplier * HashOf(key[..|key| - 1], capacity) + key[|key| - 1] as int) % capacity
  }

  /** The unreduced polynomial: the sum of key[i] * 31^(|key| - 1 - i). */
  function Polynomial(key: Key): nat
  {
    if |key| == 0 then 0
    else Multiplier * Polynomial(key[..|key| - 1]) + key[|key| - 1] as int
  }

  /**
   * With exact integers, reducing after every step gives the same index as a
   * single reduction of the whole polynomial: the per-step reduction only keeps
   * the accumulator small.
   */
  lemma {:induction false} HashIsPolynomialMod(key: Key, capacity: nat)
    requires capacity > 0
    ensures HashOf(key, capacity) == Polynomial(key) % capacity
  {
    if |key| > 0 {
      var prefix := key[..|key| - 1];
      var c := key[|key| - 1] as int;
      HashIsPolynomialMod(prefix, capacity);
      var p := Polynomial(prefix);
      var q, r := p / capacity, p % capacity;
      ScaledDivision(p, capacity, Multiplier);
      ModuloAbsorbsMultiple(Multiplier * r + c, Multiplier * q, capacity);
    }
  }

  /** Scaling the division identity `p == m * (p / m) + p % m` by `a`. */
  lemma ScaledDivision(p: int, m: int, a: int)
    requires m > 0
    ensures a * p == a * (p % m) + m * (a * (p / m))
  {
    var q, r := p / m, p % m;
    assert p == m * q + r;
    assert a * (m * q) == m * (a * q);
  }

  /** Adding a multiple of the modulus does not change the remainder. */
  lemma ModuloAbsorbsMultiple(x: int, q: int, m: int)
    requires m > 0
    ensures (x + m * q) % m == x % m
  {
    var y := x + m * q;
    var d := x / m + q - y / m;
    assert y % m - x % m == m * d;
    assert d == 0;
  }
}
