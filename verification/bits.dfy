/** Fixed-width integers, powers of two and masks, as the Go code uses them. */
module Bits {

  type u8 = x: int | 0 <= x < 0x100
  type u16 = x: int | 0 <= x < 0x1_0000
  type u32 = x: int | 0 <= x < 0x1_0000_0000
  type u64 = x: int | 0 <= x < 0x1_0000_0000_0000_0000

  /** Go's conversion uint16(x): two's complement truncation, also of a negative int. */
  function U16(x: int): u16 {
    x % 0x1_0000
  }

  function U32(x: int): u32 {
    x % 0x1_0000_0000
  }

  function Min(a: nat, b: nat): (m: nat)
    ensures m <= a && m <= b && (m == a || m == b)
  {
    if a < b then a else b
  }

  /** 1 << k */
  function Pow2(k: nat): (r: nat)
    ensures r >= 1
  {
    if k == 0 then 1 else 2 * Pow2(k - 1)
  }

  /** Bitwise and of two naturals, bit by bit. */
  function And(a: nat, b: nat): nat {
    if a == 0 || b == 0 then 0 else (a % 2) * (b % 2) + 2 * And(a / 2, b / 2)
  }

  /** Masking with 2^k - 1 is the remainder modulo 2^k. */
  lemma {:induction false} MaskIsMod(x: nat, k: nat)
    ensures And(x, Pow2(k) - 1) == x % Pow2(k)
  {
    if k == 0 {
    } else if x == 0 {
    } else {
      var p := Pow2(k - 1);
      var m := 2 * p - 1;
      assert m % 2 == 1 && m / 2 == p - 1;
      MaskIsMod(x / 2, k - 1);
      if p == 1 {
        assert And(x / 2, 0) == 0;
      }
      DoubleMod(x, p);
    }
  }

  lemma DoubleMod(x: nat, p: nat)
    requires p >= 1
    ensures x % (2 * p) == x % 2 + 2 * ((x / 2) % p)
  {
    var q := (x / 2) / p;
    var r := (x / 2) % p;
    assert x / 2 == q * p + r;
    assert x == 2 * (x / 2) + x % 2;
    assert x == q * (2 * p) + (2 * r + x % 2);
    ModUnique(x, 2 * p, q, 2 * r + x % 2);
  }

  /** Euclidean division is unique. */
  lemma ModUnique(x: int, m: nat, q: int, r: int)
    requires m > 0 && x == q * m + r && 0 <= r < m
    ensures x % m == r && x / m == q
  {
    var q', r' := x / m, x % m;
    assert x == q' * m + r';
    assert (q - q') * m == r' - r;
    SmallMultiple(q - q', m);
  }

  /** A multiple of m strictly between -m and m is zero. */
  lemma SmallMultiple(d: int, m: int)
    requires m > 0 && 0 - m < d * m < m
    ensures d == 0
  {
    if d >= 1 {
      MulAtLeast(d, m);
    } else if d <= -1 {
      assert -(d * m) == (-d) * m;
      MulAtLeast(-d, m);
    }
  }

  lemma MulAtLeast(k: nat, m: nat)
    requires k >= 1
    ensures k * m >= m
  {
    assert k * m == (k - 1) * m + m;
  }

  lemma MulMono(a: nat, b: nat, m: nat)
    requires a <= b
    ensures a * m <= b * m && (a + 1) * m == a * m + m
  {
    assert b * m == a * m + (b - a) * m;
  }

  lemma {:induction false} Pow2Sum(a: nat, b: nat)
    ensures Pow2(a + b) == Pow2(a) * Pow2(b)
  {
    if a > 0 {
      Pow2Sum(a - 1, b);
      assert Pow2(a + b) == 2 * Pow2(a - 1 + b);
      assert 2 * (Pow2(a - 1) * Pow2(b)) == (2 * Pow2(a - 1)) * Pow2(b);
    }
  }

  lemma Pow2Sixteen()
    ensures Pow2(16) == 0x1_0000
  {
    assert Pow2(4) == 16;
    Pow2Sum(4, 4);
    Pow2Sum(8, 8);
  }

  lemma {:induction false} Pow2Monotone(a: nat, b: nat)
    requires a <= b
    ensures Pow2(a) <= Pow2(b)
  {
    if a < b {
      Pow2Monotone(a, b - 1);
    }
  }

  /** Two counters with the same low 16 bits select the same slot of every ring of at most 2^16
      slots: this is what lets the ring index wrap from 65535 to 0. */
  lemma SameWordSameSlot(x: int, y: int, k: nat)
    requires k <= 16
    requires x % 0x1_0000 == y % 0x1_0000
    ensures x % Pow2(k) == y % Pow2(k)
  {
    Pow2Sum(k, 16 - k);
    Pow2Sixteen();
    CongruentMod(x, y, x / 0x1_0000 - y / 0x1_0000, Pow2(k), Pow2(16 - k), 0x1_0000);
  }

  lemma CongruentMod(x: int, y: int, d: int, m: nat, f: nat, word: nat)
    requires m > 0 && word == m * f && x == y + d * word
    ensures x % m == y % m
  {
    assert d * (f * m) == d * (m * f);
    MulAssoc(d, f, m);
    ShiftMod(y, d * f, m);
  }

  lemma MulAssoc(a: int, b: int, c: int)
    ensures a * (b * c) == (a * b) * c
  {
  }

  lemma ShiftMod(y: int, c: int, m: nat)
    requires m > 0
    ensures (y + c * m) % m == y % m
  {
    var q := y / m;
    assert (q + c) * m == q * m + c * m;
    ModUnique(y + c * m, m, q + c, y % m);
  }

  /** Counters less than a ring apart use different slots. */
  lemma DistinctSlots(a: int, b: int, m: nat)
    requires m > 0 && a < b < a + m
    ensures a % m != b % m
  {
    if a % m == b % m {
      var d := b / m - a / m;
      assert a == (a / m) * m + a % m;
      assert b == (b / m) * m + b % m;
      assert b - a == d * m;
      SmallMultiple(d, m);
    }
  }
}
