/** The table's hash function: a polynomial rolling hash over the key's
    character codes, reduced modulo the bucket count at every step. */
module Hashing {

  /** The multiplier of the rolling hash. */
  const Prime: nat := 31

  /** The code of one character of a key (its code unit). */
  function Code(c: char): nat {
    c as int
  }

  /** Specification of the hash: the accumulator after the last character,
      where each step is `(31 * acc + code) % capacity`, starting from 0. */
  function RollingHash(key: string, capacity: nat): (h: nat)
    requires capacity > 0
    ensures h < capacity
  {
    if key == [] then 0
    else (Prime * RollingHash(key[..|key| - 1], capacity) + Code(key[|key| - 1])) % capacity
  }

  /** Reference definition: the unreduced polynomial
      code(k0) * 31^(n-1) + ... + code(k(n-1)) * 31^0. */
  function Polynomial(key: string): nat {
    if key == [] then 0
    else Prime * Polynomial(key[..|key| - 1]) + Code(key[|key| - 1])
  }

  lemma MulAtLeast(c: nat, d: int)
    requires c > 0 && d >= 1
    ensures c * d >= c
  {
    if d > 1 {
      MulAtLeast(c, d - 1);
      assert c * d == c * (d - 1) + c;
    }
  }

  /** `x % c` is the one remainder s with x == c * q + s and 0 <= s < c. */
  lemma ModUnique(x: int, c: nat, q: int, s: int)
    requires c > 0 && 0 <= s < c && x == c * q + s
    ensures x % c == s
  {
    var q', s' := x / c, x % c;
    assert c * (q - q') == s' - s;
    if q - q' >= 1 {
      MulAtLeast(c, q - q');
    } else if q' - q >= 1 {
      MulAtLeast(c, q' - q);
    }
  }

  lemma ModMultipleAdd(m: nat, r: nat, c: nat)
    requires c > 0
    ensures (c * m + r) % c == r % c
  {
    var q, s := r / c, r % c;
    assert c * m + r == c * (m + q) + s;
    ModUnique(c * m + r, c, m + q, s);
  }

  lemma ModStep(a: nat, x: nat, c: nat)
    requires c > 0
    ensures (Prime * (a % c) + x) % c == (Prime * a + x) % c
  {
    var q := a / c;
    assert a == c * q + a % c;
    assert Prime * a + x == c * (Prime * q) + (Prime * (a % c) + x);
    ModMultipleAdd(Prime * q, Prime * (a % c) + x, c);
  }

  /** Reducing at every step gives the same index as reducing the whole
      polynomial once: the step-wise reduction only keeps numbers small. */
  lemma {:induction false} RollingHashIsPolynomialMod(key: string, capacity: nat)
    requires capacity > 0
    ensures RollingHash(key, capacity) == Polynomial(key) % capacity
  {
    if key != [] {
      var init := key[..|key| - 1];
      RollingHashIsPolynomialMod(init, capacity);
      ModStep(Polynomial(init), Code(key[|key| - 1]), capacity);
    }
  }

  lemma ModOfDoubleMod(a: nat, c: nat)
    requires c > 0
    ensures (a % (2 * c)) % c == a % c
  {
    var q, r := a / (2 * c), a % (2 * c);
    assert a == (2 * c) * q + r;
    assert r == c * (r / c) + r % c;
    assert (2 * c) * q == c * (2 * q);
    assert a == c * (2 * q + r / c) + r % c;
    ModUnique(a, c, 2 * q + r / c, r % c);
  }

  /** When the capacity doubles, a key in bucket i moves to bucket i or to
      bucket i + capacity, and nowhere else. */
  lemma DoublingSplitsBucket(key: string, capacity: nat)
    requires capacity > 0
    ensures RollingHash(key, 2 * capacity) % capacity == RollingHash(key, capacity)
    ensures RollingHash(key, 2 * capacity) == RollingHash(key, capacity)
         || RollingHash(key, 2 * capacity) == RollingHash(key, capacity) + capacity
  {
    var h, h2 := RollingHash(key, capacity), RollingHash(key, 2 * capacity);
    RollingHashIsPolynomialMod(key, capacity);
    RollingHashIsPolynomialMod(key, 2 * capacity);
    ModOfDoubleMod(Polynomial(key), capacity);
    assert h2 % capacity == h;
    if h2 < capacity {
      ModUnique(h2, capacity, 0, h2);
    } else {
      ModUnique(h2, capacity, 1, h2 - capacity);
    }
  }
}
