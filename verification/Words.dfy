/** 32-bit words, their wrap-around arithmetic and their bitwise operations. */
module Words {

  const WORD_SIZE: int := 0x1_0000_0000

  type Word = w: int | 0 <= w < 0x1_0000_0000

  /** Reduction modulo 2^32, as `as u32` and the wrapping operators do it. */
  function Wrap(x: int): Word { x % 0x1_0000_0000 }

  /** A word read as a signed 32-bit delta. */
  function Signed(w: Word): int { if w < 0x8000_0000 then w else w - WORD_SIZE }

  function Pow2(n: nat): (p: nat)
    ensures p >= 1
  {
    if n == 0 then 1 else 2 * Pow2(n - 1)
  }

  datatype BitOp = AndBit | OrBit | XorBit

  function CombineBits(op: BitOp, x: bool, y: bool): bool {
    match op
    case AndBit => x && y
    case OrBit => x || y
    case XorBit => x != y
  }

  /** The low n bits of a bitwise combination. */
  function Bitwise(op: BitOp, a: nat, b: nat, n: nat): (r: nat)
    ensures r < Pow2(n)
  {
    if n == 0 then 0
    else (if CombineBits(op, a % 2 == 1, b % 2 == 1) then 1 else 0) + 2 * Bitwise(op, a / 2, b / 2, n - 1)
  }

  lemma Pow2Of32()
    ensures Pow2(32) == WORD_SIZE
  {
    assert Pow2(8) == 0x100;
    assert Pow2(16) == 0x1_0000;
    assert Pow2(24) == 0x100_0000;
  }

  function BitwiseWord(op: BitOp, a: Word, b: Word): Word {
    Pow2Of32();
    Bitwise(op, a, b, 32)
  }

  function And(a: Word, b: Word): Word { BitwiseWord(AndBit, a, b) }
  function Or(a: Word, b: Word): Word { BitwiseWord(OrBit, a, b) }
  function Xor(a: Word, b: Word): Word { BitwiseWord(XorBit, a, b) }
  function Not(a: Word): Word { 0xFFFF_FFFF - a }
  function Neg(a: Word): Word { Wrap(0 - a) }
  function Mul(a: Word, b: Word): Word { Wrap(a * b) }
  function Shl(a: Word, k: Word): Word { Wrap(a * Pow2(k % 32)) }
  function Shr(a: Word, k: Word): Word {
    QuotientShrinks(a, Pow2(k % 32));
    a / Pow2(k % 32)
  }

  lemma QuotientShrinks(a: nat, p: nat)
    requires p >= 1
    ensures 0 <= a / p <= a
  {
    var q := a / p;
    assert a == p * q + a % p;
    ProductGrows(p, q);
  }

  lemma ProductGrows(p: nat, q: nat)
    requires p >= 1
    ensures p * q >= q
  {
  }

  // ----- wrap-around congruences

  lemma WrapCongruent(x: int, y: int, m: int)
    requires x == y + m * WORD_SIZE
    ensures Wrap(x) == Wrap(y)
  {
  }

  lemma WrapOfWord(w: Word)
    ensures Wrap(w) == w
  {
  }

  /** Wrapping can be delayed past additions. */
  lemma WrapAdd(x: int, y: int)
    ensures Wrap(Wrap(x) + y) == Wrap(x + y)
    ensures Wrap(x + Wrap(y)) == Wrap(x + y)
  {
    WrapCongruent(x + y, Wrap(x) + y, x / WORD_SIZE);
    WrapCongruent(x + y, x + Wrap(y), y / WORD_SIZE);
  }

  lemma WrapRegroup(x: int, y: int, z: int)
    ensures Wrap(Wrap(x + y) + z) == Wrap(x + Wrap(y + z))
  {
    WrapAdd(x + y, z);
    WrapAdd(x, y + z);
  }

  lemma WrapSub(x: int, y: int)
    ensures Wrap(Wrap(x) - y) == Wrap(x - y)
    ensures Wrap(x - Wrap(y)) == Wrap(x - y)
  {
    WrapCongruent(x - y, Wrap(x) - y, x / WORD_SIZE);
    WrapCongruent(x - y, x - Wrap(y), -(y / WORD_SIZE));
  }

  // ----- alignment masks

  lemma BitwiseAndSelf(a: nat, n: nat)
    requires a < Pow2(n)
    ensures Bitwise(AndBit, a, a, n) == a
  {
  }

  /** The successor of c in n-bit arithmetic. */
  function Successor(c: nat, n: nat): (r: nat)
    requires c < Pow2(n)
    ensures r < Pow2(n)
  {
    if c + 1 == Pow2(n) then 0 else c + 1
  }

  /** `c & (c + 1) == 0` recognises exactly the low masks 2^k - 1. */
  lemma {:induction false} LowMask(c: nat, n: nat) returns (k: nat)
    requires c < Pow2(n)
    requires Bitwise(AndBit, c, Successor(c, n), n) == 0
    ensures k <= n && c + 1 == Pow2(k)
  {
    if n == 0 {
      k := 0;
    } else if c % 2 == 0 {
      assert Pow2(n) == 2 * Pow2(n - 1);
      assert Successor(c, n) == c + 1 && (c + 1) / 2 == c / 2;
      BitwiseAndSelf(c / 2, n - 1);
      k := 0;
    } else {
      assert Pow2(n) == 2 * Pow2(n - 1);
      assert Successor(c, n) / 2 == Successor(c / 2, n - 1);
      assert Successor(c, n) % 2 == 0;
      k := LowMask(c / 2, n - 1);
      k := k + 1;
    }
  }

  lemma HalfModulo(w: nat, k: nat)
    requires k > 0
    ensures w % Pow2(k) == 2 * ((w / 2) % Pow2(k - 1)) + w % 2
  {
    var p, h := Pow2(k - 1), w / 2;
    var q, r := h / p, h % p;
    assert w == Pow2(k) * q + (2 * r + w % 2) by {
      assert h == p * q + r;
      assert 2 * (p * q) == (2 * p) * q;
    }
    assert 0 <= 2 * r + w % 2 < Pow2(k);
    ModuloUnique(w, Pow2(k), q, 2 * r + w % 2);
  }

  lemma ModuloUnique(w: int, m: int, q: int, r: int)
    requires m > 0 && w == m * q + r && 0 <= r < m
    ensures w % m == r
  {
    var d := q - w / m;
    assert m * d == w % m - r by {
      assert w == m * (w / m) + w % m;
      assert m * q - m * (w / m) == m * d;
    }
    MultipleSmall(m, d);
  }

  lemma MultipleSmall(m: int, d: int)
    requires m > 0 && -m < m * d < m
    ensures d == 0
  {
  }

  /** Clearing the low k bits rounds down to a multiple of 2^k. */
  lemma {:induction false} ClearLowBits(w: nat, c: nat, k: nat, n: nat)
    requires w < Pow2(n) && k <= n && c + 1 == Pow2(k)
    requires c < Pow2(n)
    ensures Bitwise(AndBit, w, Pow2(n) - 1 - c, n) == w - w % Pow2(k)
  {
    if n == 0 {
    } else if k == 0 {
      assert Pow2(n) == 2 * Pow2(n - 1);
      assert (Pow2(n) - 1) / 2 == Pow2(n - 1) - 1 && (Pow2(n) - 1) % 2 == 1;
      ClearLowBits(w / 2, 0, 0, n - 1);
    } else {
      var mask := Pow2(n) - 1 - c;
      Pow2Monotone(k, n);
      assert Pow2(n) == 2 * Pow2(n - 1) && Pow2(k) == 2 * Pow2(k - 1);
      assert c % 2 == 1 && c / 2 + 1 == Pow2(k - 1);
      assert mask % 2 == 0 && mask / 2 == Pow2(n - 1) - 1 - c / 2;
      ClearLowBits(w / 2, c / 2, k - 1, n - 1);
      HalfModulo(w, k);
    }
  }

  lemma {:induction false} Pow2Monotone(k: nat, n: nat)
    requires k <= n
    ensures Pow2(k) <= Pow2(n)
  {
    if k < n { Pow2Monotone(k, n - 1); }
  }

  /** The kernel's alignment test on a mask: its complement is a nonzero low mask. */
  predicate IsAlignmentMask(mask: Word) {
    Not(mask) != 0 && And(Not(mask), Wrap(Not(mask) + 1)) == 0
  }

  lemma WordSuccessor(c: int)
    requires 0 <= c < WORD_SIZE
    ensures Pow2(32) == WORD_SIZE && Wrap(c + 1) == Successor(c, 32)
  {
    Pow2Of32();
    assert Wrap(c + 1) == if c + 1 == WORD_SIZE then 0 else c + 1;
  }

  lemma LowMaskRounds(c: nat, w: nat, n: nat) returns (k: nat)
    requires c < Pow2(n) && w < Pow2(n) && Bitwise(AndBit, c, Successor(c, n), n) == 0
    ensures k <= n && c + 1 == Pow2(k)
    ensures Bitwise(AndBit, w, Pow2(n) - 1 - c, n) == w - w % (c + 1)
  {
    k := LowMask(c, n);
    ClearLowBits(w, c, k, n);
  }

  /** Masking a word with an alignment mask subtracts its residue modulo the alignment. */
  lemma AlignmentMaskRounds(mask: Word, w: Word) returns (k: nat)
    requires IsAlignmentMask(mask)
    ensures k <= 32 && Not(mask) + 1 == Pow2(k)
    ensures And(w, mask) == w - w % (Not(mask) + 1)
  {
    WordSuccessor(Not(mask));
    Pow2Of32();
    k := LowMaskRounds(Not(mask), w, 32);
  }

  // ----- the bitwise facts the evaluator relies on

  lemma {:induction false} BitwiseCommutes(op: BitOp, a: nat, b: nat, n: nat)
    ensures Bitwise(op, a, b, n) == Bitwise(op, b, a, n)
  {
    if n > 0 { BitwiseCommutes(op, a / 2, b / 2, n - 1); }
  }

  lemma AndCommutes(a: Word, b: Word)
    ensures And(a, b) == And(b, a)
  {
    BitwiseCommutes(AndBit, a, b, 32);
  }

  lemma AndOnes(a: Word)
    ensures And(a, 0xFFFF_FFFF) == a && And(0xFFFF_FFFF, a) == a
  {
    Pow2Of32();
    ClearLowBits(a, 0, 0, 32);
    AndCommutes(a, 0xFFFF_FFFF);
  }

  lemma AndSelf(a: Word)
    ensures And(a, a) == a
  {
    Pow2Of32();
    BitwiseAndSelf(a, 32);
  }

  /** Rounding down commutes with adding to something already aligned. */
  lemma RoundAligned(mask: Word, x: Word, offset: int)
    requires IsAlignmentMask(mask)
    ensures And(Wrap(And(x, mask) + offset), mask) == Wrap(And(x, mask) + (offset - offset % (Not(mask) + 1)))
  {
    var a: int, base: int := Not(mask) + 1, And(x, mask);
    var w: int := Wrap(base + offset);
    var k := AlignmentMaskRounds(mask, x);
    var k' := AlignmentMaskRounds(mask, w);
    RoundInts(a, k, x, base, offset, And(w, mask));
  }

  lemma RoundInts(a: int, k: nat, x: int, base: int, offset: int, rounded: int)
    requires k <= 32 && a == Pow2(k) && a > 0 && base == x - x % a
    requires rounded == Wrap(base + offset) - Wrap(base + offset) % a && 0 <= rounded < WORD_SIZE
    ensures rounded == Wrap(base + (offset - offset % a))
  {
    RoundsToMultiple(x, a, base);
    AlignedResidue(a, k, x / a, offset);
    RoundWrapped(base + offset, offset % a, rounded);
  }

  lemma RoundsToMultiple(x: int, a: int, base: int)
    requires a > 0 && base == x - x % a
    ensures base == a * (x / a)
  {
  }

  lemma AlignedResidue(a: int, k: nat, q: int, offset: int)
    requires k <= 32 && a == Pow2(k)
    ensures Wrap(a * q + offset) % a == offset % a
  {
    Pow2Divides(k, 32);
    Pow2Of32();
    ResidueOfWrap(a, Pow2(32 - k), q, offset);
  }

  lemma RoundWrapped(sum: int, residue: int, rounded: int)
    requires rounded == Wrap(sum) - residue && 0 <= rounded < WORD_SIZE
    ensures rounded == Wrap(sum - residue)
  {
    WrapCongruent(sum - residue, rounded, sum / WORD_SIZE);
  }

  lemma ResidueOfWrap(a: int, t: int, q: int, offset: int)
    requires a > 0 && WORD_SIZE == a * t
    ensures Wrap(a * q + offset) % a == offset % a
  {
    var m := (a * q + offset) / WORD_SIZE;
    assert Wrap(a * q + offset) == a * q + offset - m * WORD_SIZE;
    assert m * WORD_SIZE == a * (m * t) by { assert m * (a * t) == a * (m * t); }
    assert a * (q - m * t) == a * q - a * (m * t);
    SameResidue(Wrap(a * q + offset), offset, a, q - m * t);
  }

  lemma SameResidue(x: int, y: int, a: int, q: int)
    requires a > 0 && x == y + a * q
    ensures x % a == y % a
  {
    assert y == a * (y / a) + y % a;
    assert x == a * (y / a + q) + y % a;
    ModuloUnique(x, a, y / a + q, y % a);
  }

  lemma {:induction false} Pow2Divides(k: nat, n: nat)
    requires k <= n
    ensures Pow2(n) == Pow2(k) * Pow2(n - k)
  {
    if k > 0 { Pow2Divides(k - 1, n - 1); }
  }
}
