/** Fixed-width integers and the bit operations of C on them.

    A C integer of any width is modelled by the mathematical integer it stands
    for.  A left shift is a multiplication, a right shift of a signed value a
    floor division, and a truncating conversion a remainder; inclusive or, which
    has no arithmetic counterpart, is defined bit by bit. */
module Words {

  type Byte = x: int | 0 <= x < 0x100          // uint8_t
  type Word = x: int | 0 <= x < 0x1_0000       // uint16_t
  type Long = x: int | -0x8000_0000 <= x < 0x8000_0000  // int32_t

  function Pow2(n: nat): (p: int)
    ensures p >= 1
  {
    if n == 0 then 1 else 2 * Pow2(n - 1)
  }

  lemma {:induction false} Pow2Add(m: nat, n: nat)
    ensures Pow2(m + n) == Pow2(m) * Pow2(n)
  {
    if m > 0 {
      Pow2Add(m - 1, n);
      assert m + n - 1 == (m - 1) + n;
      assert 2 * (Pow2(m - 1) * Pow2(n)) == (2 * Pow2(m - 1)) * Pow2(n);
    }
  }

  lemma Pow2Values()
    ensures Pow2(7) == 0x80 && Pow2(8) == 0x100 && Pow2(15) == 0x8000 && Pow2(16) == 0x1_0000
    ensures Pow2(31) == 0x8000_0000 && Pow2(32) == 0x1_0000_0000
  {
    assert Pow2(4) == 16;
    assert Pow2(7) == 0x80 && Pow2(8) == 0x100;
    Pow2Add(8, 7);
    Pow2Add(8, 8);
    Pow2Add(16, 15);
    Pow2Add(16, 16);
  }

  /** Bit i of a two's complement integer. */
  predicate Bit(x: int, i: nat) {
    (x / Pow2(i)) % 2 == 1
  }

  function Low16(x: int): Word { x % 0x1_0000 }

  function Unsigned32(x: int): nat { x % 0x1_0000_0000 }

  /** Conversion to int32_t. */
  function Wrap32(x: int): (y: Long)
    ensures -0x8000_0000 <= x < 0x8000_0000 ==> y == x
  {
    var u := Unsigned32(x);
    if u < 0x8000_0000 then u else u - 0x1_0000_0000
  }

  function Signed16(w: Word): int {
    if w < 0x8000 then w else w - 0x1_0000
  }

  /** The signed value of a register pair. */
  function Signed32(hi: Word, lo: Word): Long {
    Signed16(hi) * 0x1_0000 + lo
  }

  function Abs(x: int): nat { if x < 0 then -x else x }

  /** C division, which truncates toward zero, and its remainder. */
  function TruncDiv(a: int, b: int): (q: int)
    requires b != 0
  {
    if (a < 0) == (b < 0) then Abs(a) / Abs(b) else -(Abs(a) / Abs(b))
  }

  function TruncRem(a: int, b: int): int
    requires b != 0
  {
    a - b * TruncDiv(a, b)
  }

  lemma TruncDivMeaning(a: int, b: int)
    requires b != 0
    ensures Abs(TruncRem(a, b)) < Abs(b)
    ensures TruncRem(a, b) != 0 ==> (TruncRem(a, b) < 0 <==> a < 0)
    ensures Abs(TruncDiv(a, b)) == Abs(a) / Abs(b)
  {
    var x, y := Abs(a), Abs(b);
    var q, r := x / y, x % y;
    assert x == y * q + r;
    NegateProduct(b, q);
  }

  lemma NegateProduct(b: int, q: int)
    ensures b * -q == -(b * q) && -b * q == -(b * q)
  {
  }

  // ---- products and quotients ---------------------------------------------

  lemma WrapShift(x: int, k: int)
    ensures Unsigned32(x + 0x1_0000_0000 * k) == Unsigned32(x)
    ensures Wrap32(x + 0x1_0000_0000 * k) == Wrap32(x)
  {
  }

  lemma SameUnsigned(x: int, y: int) returns (k: int)
    requires Unsigned32(x) == Unsigned32(y)
    ensures x == y + 0x1_0000_0000 * k
  {
    k := x / 0x1_0000_0000 - y / 0x1_0000_0000;
  }

  lemma MulMonotone(a: int, b: int, c: int)
    requires a <= b && 0 <= c
    ensures a * c <= b * c && c * a <= c * b
  {
  }

  lemma MulStep(p: int, q: int)
    ensures p * (q + 1) == p * q + p && p * (q - 1) == p * q - p
  {
  }

  lemma QuotientIs(x: int, p: int, q: int, r: int)
    requires p > 0 && x == p * q + r && 0 <= r < p
    ensures x / p == q && x % p == r
  {
    assert x == p * (x / p) + x % p;
    MulStep(p, q);
    if x / p > q {
      MulMonotone(q + 1, x / p, p);
    } else if x / p < q {
      MulMonotone(x / p, q - 1, p);
    }
  }

  lemma QuotientIsNat(x: int, p: int)
    requires p > 0 && x >= 0
    ensures x / p >= 0 && x == p * (x / p) + x % p && 0 <= x % p < p
  {
    QuotientBounds(x, p, 0, x + 1);
  }

  lemma QuotientBounds(x: int, p: int, lo: int, hi: int)
    requires p > 0 && p * lo <= x < p * hi
    ensures lo <= x / p < hi
  {
    assert x == p * (x / p) + x % p;
    MulStep(p, lo);
    if x / p < lo {
      MulMonotone(x / p, lo - 1, p);
    } else if x / p >= hi {
      MulMonotone(hi, x / p, p);
    }
  }

  // ---- inclusive or -------------------------------------------------------

  function Magnitude(x: int): nat { if x < 0 then -1 - x else x }

  /** x | y on two's complement integers of unbounded width. */
  function Or(x: int, y: int): int
    decreases Magnitude(x) + Magnitude(y)
  {
    if Magnitude(x) == 0 && Magnitude(y) == 0 then
      (if x == -1 || y == -1 then -1 else 0)
    else
      2 * Or(x / 2, y / 2) + (if x % 2 == 1 || y % 2 == 1 then 1 else 0)
  }

  lemma {:induction false} OrZero(x: int)
    ensures Or(x, 0) == x && Or(0, x) == x
    decreases Magnitude(x)
  {
    if Magnitude(x) != 0 {
      OrZero(x / 2);
    }
  }

  /** Or works on the upper and the lower k bits separately. */
  lemma {:induction false} OrSplit(a: int, b: int, c: int, d: int, k: nat)
    requires 0 <= b < Pow2(k) && 0 <= d < Pow2(k)
    ensures Or(a * Pow2(k) + b, c * Pow2(k) + d) == Or(a, c) * Pow2(k) + Or(b, d)
    ensures 0 <= Or(b, d) < Pow2(k)
    decreases k
  {
    hide Or;
    if k == 0 {
      OrZero(0);
    } else {
      HalfOfSplit(a, b, k);
      HalfOfSplit(c, d, k);
      HalfOfSplit(Or(a, c), Or(b, d), k);
      OrSplit(a, b / 2, c, d / 2, k - 1);
      OrStep(a * Pow2(k) + b, c * Pow2(k) + d);
      OrStep(b, d);
    }
  }

  lemma HalfOfSplit(a: int, b: int, k: nat)
    requires k > 0
    ensures (a * Pow2(k) + b) / 2 == a * Pow2(k - 1) + b / 2
    ensures (a * Pow2(k) + b) % 2 == b % 2
    ensures a * Pow2(k) == 2 * (a * Pow2(k - 1))
  {
    assert a * (2 * Pow2(k - 1)) == 2 * (a * Pow2(k - 1));
  }

  lemma OrStep(x: int, y: int)
    ensures Or(x, y) == 2 * Or(x / 2, y / 2) + (if x % 2 == 1 || y % 2 == 1 then 1 else 0)
  {
  }

  /** Or of numbers without common bits is their sum. */
  lemma OrDisjoint(hi: int, lo: int, k: nat, p: int)
    requires p == Pow2(k) && 0 <= lo < p
    ensures Or(hi * p, lo) == hi * p + lo
    ensures Or(lo, hi * p) == hi * p + lo
  {
    OrSplit(hi, 0, 0, lo, k);
    OrSplit(0, lo, hi, 0, k);
    OrZero(hi);
    OrZero(lo);
  }

  lemma {:induction false} OrMinusOne(x: int)
    ensures Or(x, -1) == -1
    decreases Magnitude(x)
  {
    if Magnitude(x) != 0 {
      OrMinusOne(x / 2);
    }
  }

  /** Extending the sign of a number that is already negative changes nothing. */
  lemma {:induction false} OrSignExtended(x: int, k: nat)
    requires -Pow2(k) <= x < 0
    ensures Or(x, -Pow2(k)) == x
    decreases k
  {
    if k > 0 {
      OrStep(x, -Pow2(k));
      assert -Pow2(k) / 2 == -Pow2(k - 1) && (-Pow2(k)) % 2 == 0;
      OrSignExtended(x / 2, k - 1);
    }
  }

  lemma {:induction false} OrAllOnes(x: int, k: nat)
    requires 0 <= x < Pow2(k)
    ensures Or(x, Pow2(k) - 1) == Pow2(k) - 1
    decreases k
  {
    if k > 0 {
      OrStep(x, Pow2(k) - 1);
      OrAllOnes(x / 2, k - 1);
    }
  }
}
