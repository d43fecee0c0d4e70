/** The string hash of the closure table: base-31, accumulated in 64-bit unsigned arithmetic. */
module ClosureHash {

  /** A byte of a C string; the terminating NUL is not part of the string. */
  type Byte = b: int | 1 <= b < 256 witness 1
  type CString = seq<Byte>

  const HASH_MULTIPLIER := 31
  const TWO_64 := 0x1_0000_0000_0000_0000

  /** What the accumulation loop leaves in `hash_value`. */
  function Accumulated(key: CString): (h: nat)
    ensures h < TWO_64
  {
    if key == [] then 0 else
      (Accumulated(key[..|key| - 1]) * HASH_MULTIPLIER + key[|key| - 1]) % TWO_64
  }

  function Hash(key: CString, capacity: nat): (h: nat)
    requires capacity > 0
    ensures h < capacity
  {
    Accumulated(key) % capacity
  }

  method ComputeHash(key: CString, capacity: nat) returns (h: nat)
    requires capacity > 0
    ensures h == Hash(key, capacity)
  {
    h := 0;
    for i := 0 to |key|
      invariant h == Accumulated(key[..i])
    {
      assert key[..i + 1][..i] == key[..i];
      h := (h * HASH_MULTIPLIER + key[i]) % TWO_64;
    }
    assert key[..|key|] == key;
    h := h % capacity;
  }

  // ---------------------------------------------------------------------------
  // The wrapping does not show
  // ---------------------------------------------------------------------------

  function Power31(n: nat): nat {
    if n == 0 then 1 else HASH_MULTIPLIER * Power31(n - 1)
  }

  /** The polynomial the hash stands for, over unbounded integers, first byte leading. */
  function Polynomial(key: CString): nat {
    if key == [] then 0 else key[0] * Power31(|key| - 1) + Polynomial(key[1..])
  }

  lemma {:induction false} PolynomialHorner(key: CString, b: Byte)
    ensures Polynomial(key + [b]) == HASH_MULTIPLIER * Polynomial(key) + b
  {
    if key == [] {
      assert key + [b] == [b] && [b][1..] == [];
      assert Polynomial([b]) == b * Power31(0) + Polynomial([]);
    } else {
      PolynomialHorner(key[1..], b);
      assert (key + [b])[1..] == key[1..] + [b];
      calc {
        Polynomial(key + [b]);
        key[0] * Power31(|key|) + Polynomial(key[1..] + [b]);
        key[0] * (HASH_MULTIPLIER * Power31(|key| - 1)) + HASH_MULTIPLIER * Polynomial(key[1..]) + b;
        HASH_MULTIPLIER * (key[0] * Power31(|key| - 1)) + HASH_MULTIPLIER * Polynomial(key[1..]) + b;
        HASH_MULTIPLIER * (key[0] * Power31(|key| - 1) + Polynomial(key[1..])) + b;
        HASH_MULTIPLIER * Polynomial(key) + b;
      }
    }
  }

  /** Reducing before or after a step of the accumulation makes no difference. */
  lemma StepModulo(p: nat, m: nat, b: nat)
    requires m > 0
    ensures (p % m * HASH_MULTIPLIER + b) % m == (HASH_MULTIPLIER * p + b) % m
  {
    var q, r := p / m, p % m;
    assert p == m * q + r;
    assert HASH_MULTIPLIER * (m * q) == m * (HASH_MULTIPLIER * q);
    ModAddMultiple(r * HASH_MULTIPLIER + b, m, HASH_MULTIPLIER * q);
  }

  lemma {:induction false} AccumulatedIsPolynomial(key: CString)
    ensures Accumulated(key) == Polynomial(key) % TWO_64
  {
    if key != [] {
      var init, last := key[..|key| - 1], key[|key| - 1];
      AccumulatedIsPolynomial(init);
      PolynomialHorner(init, last);
      assert key == init + [last];
      StepModulo(Polynomial(init), TWO_64, last);
    }
  }

  lemma ModAddMultiple(r: int, c: int, k: int)
    requires c > 0
    ensures (r + c * k) % c == r % c
  {
    var q := r / c;
    assert r == c * q + r % c;
    assert r + c * k == c * (q + k) + r % c by {
      assert c * (q + k) == c * q + c * k;
    }
    ModUnique(r + c * k, c, q + k, r % c);
  }

  lemma ModUnique(x: int, c: int, q: int, r: int)
    requires c > 0 && 0 <= r < c && x == c * q + r
    ensures x % c == r
  {
    var q', r' := x / c, x % c;
    var d := q - q';
    Distributes(c, q, q');
    assert c * d == r' - r;
    SmallMultiple(c, d);
  }

  lemma Distributes(c: int, q: int, q': int)
    ensures c * (q - q') == c * q - c * q'
  {
  }

  lemma SmallMultiple(c: int, d: int)
    requires c > 0 && -c < c * d < c
    ensures d == 0
  {
    assert d >= 1 ==> c * d >= c;
    assert d <= -1 ==> c * d <= -c;
  }

  /** Reducing by a multiple of the modulus first makes no difference. */
  lemma ModOfMod(p: nat, m: nat, c: nat)
    requires m > 0 && c > 0 && m % c == 0
    ensures p % m % c == p % c
  {
    var k, q := m / c, p / m;
    assert m == c * k;
    assert p == m * q + p % m;
    assert (c * k) * q == c * (k * q);
    ModAddMultiple(p % m, c, k * q);
  }

  /**
   For a capacity dividing 2^64, such as the table's 4096, the wrap-around of the
   64-bit arithmetic cannot be seen in the hash.
   */
  lemma HashIsPolynomial(key: CString, capacity: nat)
    requires capacity > 0 && TWO_64 % capacity == 0
    ensures Hash(key, capacity) == Polynomial(key) % capacity
  {
    AccumulatedIsPolynomial(key);
    ModOfMod(Polynomial(key), TWO_64, capacity);
  }
}
