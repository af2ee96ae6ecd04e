/** The fixed-width integer operators of the Go sources, on unbounded integers.

    A word of width `w` is a `nat` below `Pow2(w)`; shifts and conversions say
    explicitly what they truncate. */
module Bits {

  type Byte = x: int | 0 <= x < 256
  type Bytes = seq<Byte>

  const TWO_31: int := 0x8000_0000
  const TWO_32: int := 0x1_0000_0000
  const TWO_63: int := 0x8000_0000_0000_0000
  const TWO_64: int := 0x1_0000_0000_0000_0000

  datatype Option<+T> = None | Some(value: T)

  function Pow2(n: nat): (r: nat)
    ensures r > 0
  {
    if n == 0 then 1 else 2 * Pow2(n - 1)
  }

  lemma {:induction false} Pow2Add(a: nat, b: nat)
    ensures Pow2(a + b) == Pow2(a) * Pow2(b)
  {
    if a != 0 {
      Pow2Add(a - 1, b);
    }
  }

  lemma Pow2Literals()
    ensures Pow2(7) == 128
    ensures Pow2(32) == TWO_32
    ensures Pow2(64) == TWO_64
  {
    assert Pow2(8) == 256;
    Pow2Add(8, 8);
    Pow2Add(16, 16);
    Pow2Add(32, 32);
  }

  /** The Go operator `|` on non-negative words, bit by bit. */
  function Or(a: nat, b: nat): nat
    decreases a + b
  {
    if a == 0 then b
    else if b == 0 then a
    else 2 * Or(a / 2, b / 2) + (if a % 2 == 1 || b % 2 == 1 then 1 else 0)
  }

  /** The Go operator `&` on non-negative words, bit by bit. */
  function And(a: nat, b: nat): nat
    decreases a + b
  {
    if a == 0 || b == 0 then 0
    else 2 * And(a / 2, b / 2) + (if a % 2 == 1 && b % 2 == 1 then 1 else 0)
  }

  /** The Go operator `<<` on a word of `width` bits: bits shifted out are lost. */
  function Shl(x: nat, shift: nat, width: nat): nat {
    (x * Pow2(shift)) % Pow2(width)
  }

  /** `math/bits.Len64`: the number of bits needed to write `x`. */
  function BitLen(x: nat): nat {
    if x == 0 then 0 else 1 + BitLen(x / 2)
  }

  /** The two's complement reading of a 32-bit word. */
  function ToInt32(x: nat): (r: int)
    requires x < TWO_32
    ensures -TWO_31 <= r < TWO_31
  {
    if x < TWO_31 then x else x - TWO_32
  }

  /** The two's complement reading of a 64-bit word. */
  function ToInt64(x: nat): (r: int)
    requires x < TWO_64
    ensures -TWO_63 <= r < TWO_63
  {
    if x < TWO_63 then x else x - TWO_64
  }

  lemma {:induction false} EvenMod(b: nat, k: nat)
    requires k > 0 && b % Pow2(k) == 0
    ensures b % 2 == 0 && (b / 2) % Pow2(k - 1) == 0
  {
    var p := Pow2(k - 1);
    var q := b / Pow2(k);
    assert b == q * (2 * p) == 2 * (q * p);
    assert b / 2 == q * p;
    assert (q * p) % p == 0 by { MulMod(q, p); }
  }

  lemma MulMod(q: nat, p: nat)
    requires p > 0
    ensures (q * p) % p == 0 && (q * p) / p == q
  {
    DivModUnique(q * p, p, q, 0);
  }

  lemma MulAtLeast(a: int, d: nat)
    requires a >= 1
    ensures a * d >= d
  {
    assert a * d == d + (a - 1) * d;
  }

  /** Division with remainder has one answer. */
  lemma DivModUnique(x: int, d: nat, q: int, r: int)
    requires d > 0 && x == q * d + r && 0 <= r < d
    ensures x / d == q && x % d == r
  {
    var q' := x / d;
    QuotientUnique(d, q, r, q', x - q' * d);
  }

  lemma QuotientUnique(d: nat, q: int, r: int, q': int, r': int)
    requires 0 <= r < d && 0 <= r' < d && q * d + r == q' * d + r'
    ensures q == q' && r == r'
  {
    if q' > q {
      assert (q' - q) * d == q' * d - q * d;
      MulAtLeast(q' - q, d);
    } else if q' < q {
      assert (q - q') * d == q * d - q' * d;
      MulAtLeast(q - q', d);
    }
  }

  /** Words with no common bit positions are joined by addition. */
  lemma {:induction false} OrDisjoint(a: nat, b: nat, k: nat)
    requires a < Pow2(k) && b % Pow2(k) == 0
    ensures Or(a, b) == a + b
    decreases k
  {
    if a != 0 && b != 0 {
      EvenMod(b, k);
      OrDisjoint(a / 2, b / 2, k - 1);
    }
  }

  /** A mask of `k` ones keeps the remainder modulo `Pow2(k)`. */
  lemma {:induction false} AndMask(a: nat, k: nat)
    ensures And(a, Pow2(k) - 1) == a % Pow2(k)
    decreases k
  {
    if k == 0 {
      assert a % 1 == 0;
    } else if a == 0 {
      DivModUnique(0, Pow2(k), 0, 0);
    } else {
      AndMask(a / 2, k - 1);
      var p := Pow2(k - 1);
      AndMaskStep(a, p);
      assert Pow2(k) == 2 * p;
    }
  }

  lemma {:induction false} AndMaskStep(a: nat, p: nat)
    requires p > 0 && a > 0 && And(a / 2, p - 1) == (a / 2) % p
    ensures And(a, 2 * p - 1) == a % (2 * p)
  {
    assert (2 * p - 1) / 2 == p - 1 && (2 * p - 1) % 2 == 1;
    HalveMod(a, p);
  }

  lemma HalveMod(a: nat, p: nat)
    requires p > 0
    ensures a % (2 * p) == 2 * ((a / 2) % p) + a % 2
  {
    var h := a / 2;
    var q, r := h / p, h % p;
    assert h == q * p + r;
    assert q * (2 * p) == 2 * (q * p);
    DivModUnique(a, 2 * p, q, 2 * r + a % 2);
  }

  /** `x % (p*m) % p == x % p`: truncating to fewer bits forgets a wider truncation. */
  lemma ModMod(x: int, p: nat, m: nat)
    requires p > 0 && m > 0
    ensures p * m > 0 && x % (p * m) % p == x % p
  {
    assert p * m > 0;
    var q, r := x / (p * m), x % (p * m);
    var q2, r2 := r / p, r % p;
    assert x == q * (p * m) + q2 * p + r2 == (q * m + q2) * p + r2 by {
      assert q * (p * m) == (q * m) * p;
    }
    DivModUnique(x, p, q * m + q2, r2);
  }
}
