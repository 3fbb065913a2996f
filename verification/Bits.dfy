/** Fixed-width integers and the bit operators of the host language, on mathematical integers.

    `And`, `Or` and `Xor` are defined bit by bit on natural numbers. A negative operand is first
    reduced with `U32`, which gives its 32-bit two's complement pattern. Shifts are multiplication
    and floor division by a power of two.
  */
module Bits {
  type Byte = x: int | 0 <= x < 0x100
  type U16 = x: int | 0 <= x < 0x1_0000
  type Word = x: int | 0 <= x < 0x1_0000_0000
  type Int16 = x: int | -0x8000 <= x < 0x8000

  function Pow2(k: nat): (p: nat)
    ensures p >= 1
  {
    if k == 0 then 1 else 2 * Pow2(k - 1)
  }

  /** Conversion to an unsigned 8, 16 or 32-bit integer: reduction modulo its range. */
  function U8(x: int): Byte { x % 0x100 }
  function ToU16(x: int): U16 { x % 0x1_0000 }
  function U32(x: int): Word { x % 0x1_0000_0000 }

  /** Conversion to a signed 8, 16 or 32-bit integer: wrap into the signed range. */
  function S8(x: int): int { (x + 0x80) % 0x100 - 0x80 }
  function S16(x: int): Int16 { (x + 0x8000) % 0x1_0000 - 0x8000 }
  function S32(x: int): int { (x + 0x8000_0000) % 0x1_0000_0000 - 0x8000_0000 }

  function Shl(x: int, k: nat): (r: int)
    ensures x >= 0 ==> r >= 0
  {
    NonNegative(x, Pow2(k));
    x * Pow2(k)
  }

  function Shr(x: int, k: nat): (r: int)
    ensures x >= 0 ==> r >= 0
  {
    NonNegative(x, Pow2(k));
    x / Pow2(k)
  }

  lemma NonNegative(x: int, p: int)
    requires p > 0
    ensures x >= 0 ==> x * p >= 0 && x / p >= 0
  {}

  /** Bitwise complement of a signed integer. */
  function Not(x: int): int { -1 - x }

  function Abs(x: int): nat { if x < 0 then -x else x }

  function And(a: nat, b: nat): nat {
    if a == 0 || b == 0 then 0
    else 2 * And(a / 2, b / 2) + (if a % 2 == 1 && b % 2 == 1 then 1 else 0)
  }

  function Or(a: nat, b: nat): nat {
    if a == 0 then b
    else if b == 0 then a
    else 2 * Or(a / 2, b / 2) + (if a % 2 == 1 || b % 2 == 1 then 1 else 0)
  }

  function Xor(a: nat, b: nat): nat {
    if a == 0 then b
    else if b == 0 then a
    else 2 * Xor(a / 2, b / 2) + (if a % 2 != b % 2 then 1 else 0)
  }

  lemma LargePowers()
    ensures Pow2(15) == 0x8000 && Pow2(16) == 0x1_0000 && Pow2(24) == 0x100_0000
  {
    assert Pow2(8) == 0x100;
    assert Pow2(10) == 4 * Pow2(8) && Pow2(12) == 4 * Pow2(10) && Pow2(14) == 4 * Pow2(12);
    assert Pow2(16) == 4 * Pow2(14) && Pow2(18) == 4 * Pow2(16) && Pow2(20) == 4 * Pow2(18);
    assert Pow2(22) == 4 * Pow2(20) && Pow2(24) == 4 * Pow2(22);
  }

  lemma AndStep(a: nat, b: nat)
    ensures And(a, b) == 2 * And(a / 2, b / 2) + (if a % 2 == 1 && b % 2 == 1 then 1 else 0)
  {}

  lemma OrStep(a: nat, b: nat)
    ensures Or(a, b) == 2 * Or(a / 2, b / 2) + (if a % 2 == 1 || b % 2 == 1 then 1 else 0)
  {}

  lemma XorStep(a: nat, b: nat)
    ensures Xor(a, b) == 2 * Xor(a / 2, b / 2) + (if a % 2 != b % 2 then 1 else 0)
  {}

  /** The number whose low k bits are those of `l` and whose other bits are `h`. */
  function Cat(h: nat, k: nat, l: nat): nat {
    if k == 0 then h else 2 * Cat(h, k - 1, l / 2) + l % 2
  }

  lemma HalveBound(k: nat, l: nat)
    requires k > 0 && l < Pow2(k)
    ensures l / 2 < Pow2(k - 1)
  {}

  lemma CatHalves(h: nat, k: nat, l: nat)
    requires k > 0
    ensures Cat(h, k, l) / 2 == Cat(h, k - 1, l / 2) && Cat(h, k, l) % 2 == l % 2
  {}

  lemma CatFold(h: nat, k: nat, l: nat, bit: nat)
    requires k > 0 && bit < 2
    ensures Cat(h, k, 2 * l + bit) == 2 * Cat(h, k - 1, l) + bit
  {
    assert (2 * l + bit) / 2 == l;
  }

  lemma {:induction false} CatValue(h: nat, k: nat, l: nat)
    requires l < Pow2(k)
    ensures Cat(h, k, l) == h * Pow2(k) + l
  {
    if k > 0 {
      var p := Pow2(k - 1);
      CatValue(h, k - 1, l / 2);
      assert h * (2 * p) == 2 * (h * p);
    }
  }

  /** The operators act on the high part and on the low k bits separately. */
  lemma {:induction false} AndCat(k: nat, h: nat, l: nat, mh: nat, ml: nat)
    requires l < Pow2(k) && ml < Pow2(k)
    ensures And(Cat(h, k, l), Cat(mh, k, ml)) == Cat(And(h, mh), k, And(l, ml))
  {
    if k > 0 {
      hide And, Pow2, Cat;
      HalveBound(k, l);
      HalveBound(k, ml);
      AndCat(k - 1, h, l / 2, mh, ml / 2);
      CatHalves(h, k, l);
      CatHalves(mh, k, ml);
      AndStep(Cat(h, k, l), Cat(mh, k, ml));
      AndStep(l, ml);
      CatFold(And(h, mh), k, And(l / 2, ml / 2), if l % 2 == 1 && ml % 2 == 1 then 1 else 0);
    }
  }

  lemma {:induction false} OrCat(k: nat, h: nat, l: nat, mh: nat, ml: nat)
    requires l < Pow2(k) && ml < Pow2(k)
    ensures Or(Cat(h, k, l), Cat(mh, k, ml)) == Cat(Or(h, mh), k, Or(l, ml))
  {
    if k > 0 {
      hide Or, Pow2, Cat;
      HalveBound(k, l);
      HalveBound(k, ml);
      OrCat(k - 1, h, l / 2, mh, ml / 2);
      CatHalves(h, k, l);
      CatHalves(mh, k, ml);
      OrStep(Cat(h, k, l), Cat(mh, k, ml));
      OrStep(l, ml);
      CatFold(Or(h, mh), k, Or(l / 2, ml / 2), if l % 2 == 1 || ml % 2 == 1 then 1 else 0);
    }
  }

  lemma {:induction false} XorCat(k: nat, h: nat, l: nat, mh: nat, ml: nat)
    requires l < Pow2(k) && ml < Pow2(k)
    ensures Xor(Cat(h, k, l), Cat(mh, k, ml)) == Cat(Xor(h, mh), k, Xor(l, ml))
  {
    if k > 0 {
      hide Xor, Pow2, Cat;
      HalveBound(k, l);
      HalveBound(k, ml);
      XorCat(k - 1, h, l / 2, mh, ml / 2);
      CatHalves(h, k, l);
      CatHalves(mh, k, ml);
      XorStep(Cat(h, k, l), Cat(mh, k, ml));
      XorStep(l, ml);
      CatFold(Xor(h, mh), k, Xor(l / 2, ml / 2), if l % 2 != ml % 2 then 1 else 0);
    }
  }

  lemma {:induction false} OperatorBound(k: nat, p: nat, a: nat, b: nat)
    requires p == Pow2(k) && a < p && b < p
    ensures And(a, b) < p && Or(a, b) < p && Xor(a, b) < p
  {
    if k > 0 {
      OperatorBound(k - 1, p / 2, a / 2, b / 2);
      AndStep(a, b);
      OrStep(a, b);
      XorStep(a, b);
    }
  }

  lemma XorOfBytes(a: Byte, b: Byte)
    ensures Xor(a, b) < 0x100
  {
    OperatorBound(8, 256, a, b);
  }

  lemma AndSplit(k: nat, p: nat, h: nat, l: nat, mh: nat, ml: nat)
    requires p == Pow2(k) && l < p && ml < p
    ensures And(h * p + l, mh * p + ml) == And(h, mh) * p + And(l, ml)
  {
    hide And, Pow2, Cat;
    AndCat(k, h, l, mh, ml);
    OperatorBound(k, p, l, ml);
    CatValue(h, k, l);
    CatValue(mh, k, ml);
    CatValue(And(h, mh), k, And(l, ml));
  }

  lemma OrSplit(k: nat, p: nat, h: nat, l: nat, mh: nat, ml: nat)
    requires p == Pow2(k) && l < p && ml < p
    ensures Or(h * p + l, mh * p + ml) == Or(h, mh) * p + Or(l, ml)
  {
    hide Or, Pow2, Cat;
    OrCat(k, h, l, mh, ml);
    OperatorBound(k, p, l, ml);
    CatValue(h, k, l);
    CatValue(mh, k, ml);
    CatValue(Or(h, mh), k, Or(l, ml));
  }

  lemma XorSplit(k: nat, p: nat, h: nat, l: nat, mh: nat, ml: nat)
    requires p == Pow2(k) && l < p && ml < p
    ensures Xor(h * p + l, mh * p + ml) == Xor(h, mh) * p + Xor(l, ml)
  {
    hide Xor, Pow2, Cat;
    XorCat(k, h, l, mh, ml);
    OperatorBound(k, p, l, ml);
    CatValue(h, k, l);
    CatValue(mh, k, ml);
    CatValue(Xor(h, mh), k, Xor(l, ml));
  }

  /** Fields that do not overlap: bitwise or is addition, and nothing is shared. */
  lemma DisjointFields(k: nat, p: nat, h: nat, l: nat)
    requires p == Pow2(k) && l < p
    ensures Or(h * p, l) == h * p + l
    ensures And(h * p, l) == 0
  {
    assert Or(h, 0) == h && Or(0, l) == l && And(h, 0) == 0 && And(0, l) == 0;
    hide And, Or, Pow2;
    assert 0 * p + l == l && h * p + 0 == h * p && 0 * p == 0;
    OrSplit(k, p, h, 0, 0, l);
    AndSplit(k, p, h, 0, 0, l);
  }

  lemma ModDouble(a: nat, p: nat)
    requires p > 0
    ensures a % (2 * p) == 2 * (a / 2 % p) + a % 2
  {
    var q, r := a / 2 / p, a / 2 % p;
    assert a / 2 == p * q + r;
    assert a == 2 * (p * q) + (2 * r + a % 2);
    assert 2 * (p * q) == (2 * p) * q;
    ModUnique(a, 2 * p, q, 2 * r + a % 2);
  }

  /** Division with remainder is unique. */
  lemma ModUnique(a: int, m: int, q: int, r: int)
    requires m > 0 && 0 <= r < m && a == m * q + r
    ensures a / m == q && a % m == r
  {
    var q', r' := a / m, a % m;
    var d := q - q';
    assert m * d == m * q - m * q';
    assert m * d == r' - r;
    if d > 0 { MulAtLeast(m, d); }
    if d < 0 { assert m * -d == -(m * d); MulAtLeast(m, -d); }
  }

  lemma MulAtLeast(m: int, d: int)
    requires m > 0 && d > 0
    ensures m * d >= m
  {}

  /** Masking with 2^k - 1 keeps the low k bits. */
  lemma {:induction false} AndMask(a: nat, k: nat, p: nat)
    requires p == Pow2(k)
    ensures And(a, p - 1) == a % p
  {
    hide And;
    if k == 0 {
      AndZero(a);
    } else {
      var h := Pow2(k - 1);
      assert p == 2 * h;
      hide Pow2;
      AndMask(a / 2, k - 1, h);
      AndStep(a, p - 1);
      assert (p - 1) / 2 == h - 1 && (p - 1) % 2 == 1;
      ModDouble(a, h);
    }
  }

  lemma AndZero(a: nat)
    ensures And(a, 0) == 0 && And(0, a) == 0
  {}

  lemma XorZero(a: nat)
    ensures Xor(a, 0) == a && Xor(0, a) == a
  {}

  lemma {:induction false} XorAssociative(a: nat, b: nat, c: nat)
    ensures Xor(Xor(a, b), c) == Xor(a, Xor(b, c))
  {
    hide Xor;
    if a == 0 || b == 0 || c == 0 {
      XorZero(a);
      XorZero(b);
      XorZero(c);
      XorZero(Xor(a, b));
      XorZero(Xor(b, c));
    } else {
      XorAssociative(a / 2, b / 2, c / 2);
      XorStep(a, b);
      XorStep(b, c);
      XorStep(Xor(a, b), c);
      XorStep(a, Xor(b, c));
    }
  }

  lemma {:induction false} XorSelf(a: nat)
    ensures Xor(a, a) == 0
  {
    if a != 0 { XorSelf(a / 2); }
  }
}
