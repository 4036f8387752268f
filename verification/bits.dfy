/** Powers of two, bitwise operations on natural numbers, and the 32-bit signed words of the
    generated MIPS code.  The masks and shifts of the two hash tables are read through here. */
module Bits {

  function Pow2(k: nat): (p: nat)
    ensures p > 0
  {
    if k == 0 then 1 else 2 * Pow2(k - 1)
  }

  ghost predicate PowerOfTwo(n: nat) {
    exists k: nat :: n == Pow2(k)
  }

  /** The C operator `&`, bit by bit. */
  function BitAnd(a: nat, b: nat): nat
    decreases a
  {
    if a == 0 then 0 else (a % 2) * (b % 2) + 2 * BitAnd(a / 2, b / 2)
  }

  /** The C operator `|`, bit by bit. */
  function BitOr(a: nat, b: nat): nat
    decreases a + b
  {
    if a == 0 && b == 0 then 0
    else (if a % 2 == 1 || b % 2 == 1 then 1 else 0) + 2 * BitOr(a / 2, b / 2)
  }

  /** The C operator `>>`. */
  function ShiftRight(a: nat, k: nat): nat
    decreases k
  {
    if k == 0 then a else ShiftRight(a / 2, k - 1)
  }

  lemma HalfMod(h: nat, p: nat)
    requires p > 0
    ensures h % (2 * p) == h % 2 + 2 * ((h / 2) % p)
    ensures h / (2 * p) == (h / 2) / p
  {
    var q, r := h / 2, h % 2;
    var a, b := q / p, q % p;
    assert h == a * (2 * p) + (r + 2 * b) by {
      assert h == 2 * q + r && q == a * p + b;
      assert 2 * (a * p) == a * (2 * p);
    }
    UniqueRemainder(h, 2 * p, a, r + 2 * b);
  }

  lemma Multiple(x: int, d: nat)
    requires x >= 1
    ensures x * d >= d
  {
  }

  lemma UniqueRemainder(n: nat, d: nat, q: nat, r: nat)
    requires d > 0 && r < d && n == q * d + r
    ensures n / d == q && n % d == r
  {
    var q' := n / d;
    var r' := n % d;
    assert n == q' * d + r';
    var x := q - q';
    assert x * d == r' - r;
    if x > 0 {
      Multiple(x, d);
    } else if x < 0 {
      Multiple(-x, d);
    }
  }

  /** Masking with a power of two less one is the remainder, for every value. */
  lemma {:induction false} MaskIsMod(h: nat, k: nat)
    ensures BitAnd(h, Pow2(k) - 1) == h % Pow2(k)
    decreases k, h
  {
    if k == 0 {
      AndZero(h);
    } else if h == 0 {
    } else {
      var p := Pow2(k - 1);
      assert (2 * p - 1) % 2 == 1 && (2 * p - 1) / 2 == p - 1;
      MaskIsMod(h / 2, k - 1);
      HalfMod(h, p);
    }
  }

  /** hash & (size - 1) for a size that is a power of two. */
  lemma MaskOfPower(h: nat, size: nat)
    requires size > 0 && PowerOfTwo(size)
    ensures BitAnd(h, size - 1) == h % size
  {
    var k: nat :| size == Pow2(k);
    MaskIsMod(h, k);
  }

  lemma AndZero(h: nat)
    ensures BitAnd(h, 0) == 0
    decreases h
  {
    if h != 0 {
      AndZero(h / 2);
    }
  }

  lemma {:induction false} AndBound(a: nat, b: nat)
    ensures BitAnd(a, b) <= a
    decreases a
  {
    if a != 0 {
      AndBound(a / 2, b / 2);
    }
  }

  lemma {:induction false} OrBounds(a: nat, b: nat, k: nat)
    requires a < Pow2(k) && b < Pow2(k)
    ensures a <= BitOr(a, b) && b <= BitOr(a, b) < Pow2(k)
    decreases k
  {
    if k > 0 && (a != 0 || b != 0) {
      OrBounds(a / 2, b / 2, k - 1);
    }
  }

  lemma WordPower()
    ensures Pow2(32) == 0x1_0000_0000
  {
    assert Pow2(2) == 4 && Pow2(4) == 16 && Pow2(6) == 64 && Pow2(8) == 256;
    assert Pow2(10) == 0x400 && Pow2(12) == 0x1000 && Pow2(14) == 0x4000 && Pow2(16) == 0x1_0000;
    assert Pow2(18) == 0x4_0000 && Pow2(20) == 0x10_0000 && Pow2(22) == 0x40_0000 && Pow2(24) == 0x100_0000;
    assert Pow2(26) == 0x400_0000 && Pow2(28) == 0x1000_0000 && Pow2(30) == 0x4000_0000;
  }

  lemma {:induction false} ShiftIsDivision(a: nat, k: nat)
    ensures ShiftRight(a, k) == a / Pow2(k)
    decreases k
  {
    if k > 0 {
      ShiftIsDivision(a / 2, k - 1);
      HalfMod(a, Pow2(k - 1));
    }
  }

  /** Shift plus masked test, the integer ceiling of the expansion code. */
  lemma ShiftMaskIsCeil(n: nat, k: nat)
    ensures ShiftRight(n, k) + (if BitAnd(n, Pow2(k) - 1) != 0 then 1 else 0) == (n + Pow2(k) - 1) / Pow2(k)
  {
    MaskIsMod(n, k);
    ShiftIsDivision(n, k);
    CeilByRemainder(n, Pow2(k));
  }

  lemma CeilByRemainder(n: nat, p: nat)
    requires p > 0
    ensures n / p + (if n % p != 0 then 1 else 0) == (n + p - 1) / p
  {
    var q := n / p;
    var r := n % p;
    assert n == q * p + r;
    if r == 0 {
      UniqueRemainder(n + p - 1, p, q, p - 1);
    } else {
      assert (q + 1) * p == q * p + p;
      UniqueRemainder(n + p - 1, p, q + 1, r - 1);
    }
  }

  // ----- 32-bit words -----

  const MIN_WORD: int := -0x8000_0000
  const MAX_WORD: int := 0x7fff_ffff

  type Word = x: int | -0x8000_0000 <= x <= 0x7fff_ffff witness 0

  predicate InWord(x: int) {
    MIN_WORD <= x <= MAX_WORD
  }

  /** Low 32 bits of x, read as a signed word. */
  function Wrap(x: int): Word {
    var u := x % 0x1_0000_0000;
    if u > MAX_WORD then u - 0x1_0000_0000 else u
  }

  function Unsigned(w: Word): nat {
    if w < 0 then w + 0x1_0000_0000 else w
  }

  /** Division truncating toward zero, as both C and the MIPS `div` have it. */
  function TruncDiv(a: int, b: int): int
    requires b != 0
  {
    if a >= 0 then a / b else -((-a) / b)
  }

  /** The truncated quotient leaves a remainder smaller than the divisor and with the sign of the dividend. */
  predicate Quotient(a: int, b: int, q: int) {
    var r := a - q * b;
    (b > 0 ==> -b < r < b) && (b < 0 ==> b < r < -b) && (a >= 0 ==> r >= 0) && (a <= 0 ==> r <= 0)
  }

  /** It does so, and no other number does. */
  lemma TruncDivExactly(a: int, b: int, q: int)
    requires b != 0
    ensures Quotient(a, b, q) <==> q == TruncDiv(a, b)
  {
    var t := TruncDiv(a, b);
    assert Quotient(a, b, t) by { TruncDivRemainder(a, b); }
    if Quotient(a, b, q) && q != t {
      var x := q - t;
      assert x * b == (a - t * b) - (a - q * b);
      FarApart(x, b);
    }
  }

  lemma TruncDivRemainder(a: int, b: int)
    requires b != 0
    ensures Quotient(a, b, TruncDiv(a, b))
  {
    var n := if a >= 0 then a else -a;
    var d, r := n / b, n % b;
    assert n == d * b + r;
    NegatedTimes(d, b);
  }

  lemma NegatedTimes(x: int, d: int)
    ensures (-x) * d == -(x * d)
  {
  }

  lemma FarApart(x: int, b: int)
    requires x != 0 && b != 0
    ensures (b > 0 && (x * b >= b || x * b <= -b)) || (b < 0 && (x * b >= -b || x * b <= b))
  {
    if b > 0 {
      if x > 0 { Multiple(x, b); } else { Multiple(-x, b); assert x * b == -((-x) * b); }
    } else {
      if x > 0 { Multiple(x, -b); assert x * b == -(x * (-b)); }
      else { Multiple(-x, -b); assert x * b == (-x) * (-b); }
    }
  }

  /** The low 32 bits: congruent, and the only word that is. */
  lemma WrapExactly(x: int, w: Word)
    ensures w == Wrap(x) <==> (x - w) % 0x1_0000_0000 == 0
  {
  }

  /** Bit k of a word. */
  function Bit(a: nat, k: nat): bool {
    a / Pow2(k) % 2 == 1
  }

  lemma BitAbove(a: nat, k: nat)
    requires k > 0
    ensures Bit(a, k) == Bit(a / 2, k - 1)
  {
    HalfMod(a, Pow2(k - 1));
  }

  /** & and | are and and or of each bit. */
  lemma {:induction false} BitwiseExactly(a: nat, b: nat, k: nat)
    ensures Bit(BitAnd(a, b), k) == (Bit(a, k) && Bit(b, k))
    ensures Bit(BitOr(a, b), k) == (Bit(a, k) || Bit(b, k))
    decreases k
  {
    var x, y := BitAnd(a, b), BitOr(a, b);
    AndOut(a, b);
    OrOut(a, b);
    if k > 0 {
      BitAbove(a, k);
      BitAbove(b, k);
      BitAbove(x, k);
      BitAbove(y, k);
      BitwiseExactly(a / 2, b / 2, k - 1);
    }
  }

  lemma AndOut(a: nat, b: nat)
    ensures BitAnd(a, b) % 2 == (if a % 2 == 1 && b % 2 == 1 then 1 else 0)
    ensures BitAnd(a, b) / 2 == BitAnd(a / 2, b / 2)
  {
    hide BitAnd;
    AndStep(a, b);
    LowBit(if a % 2 == 1 && b % 2 == 1 then 1 else 0, BitAnd(a / 2, b / 2));
  }

  lemma AndStep(a: nat, b: nat)
    ensures BitAnd(a, b) == (if a % 2 == 1 && b % 2 == 1 then 1 else 0) + 2 * BitAnd(a / 2, b / 2)
  {
    var x, y := a % 2, b % 2;
    OneBit(x, y);
    AndUnfold(a, b, x * y);
  }

  lemma OneBit(x: nat, y: nat)
    requires x <= 1 && y <= 1
    ensures x * y == if x == 1 && y == 1 then 1 else 0
  {
  }

  lemma AndUnfold(a: nat, b: nat, p: nat)
    requires p == (a % 2) * (b % 2)
    ensures BitAnd(a, b) == p + 2 * BitAnd(a / 2, b / 2)
  {
    if a == 0 { assert a / 2 == 0; }
  }

  lemma OrOut(a: nat, b: nat)
    ensures BitOr(a, b) % 2 == (if a % 2 == 1 || b % 2 == 1 then 1 else 0)
    ensures BitOr(a, b) / 2 == BitOr(a / 2, b / 2)
  {
    hide BitOr;
    OrStep(a, b);
    LowBit(if a % 2 == 1 || b % 2 == 1 then 1 else 0, BitOr(a / 2, b / 2));
  }

  lemma OrStep(a: nat, b: nat)
    ensures BitOr(a, b) == (if a % 2 == 1 || b % 2 == 1 then 1 else 0) + 2 * BitOr(a / 2, b / 2)
  {
    if a == 0 && b == 0 { assert a / 2 == 0 && b / 2 == 0; }
  }

  lemma LowBit(p: nat, q: nat)
    requires p <= 1
    ensures (p + 2 * q) % 2 == p && (p + 2 * q) / 2 == q
  {
  }

  lemma WrapInRange(x: int)
    requires InWord(x)
    ensures Wrap(x) == x
  {
  }
}
