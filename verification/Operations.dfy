/** What the word operations compute, bit by bit or as arithmetic, and that abstract operations lose nothing they need
    not lose. */
module Operations {
  import opened Words
  import opened Identities
  import opened Sets
  import opened Values
  import opened Expressions

  // ----- bits

  /** Bit i of a number, counted from the low end. */
  function Bit(w: nat, i: nat): (b: nat)
    ensures b <= 1
  {
    if i == 0 then w % 2 else Bit(w / 2, i - 1)
  }

  function Halved(w: nat, k: nat): nat { if k == 0 then w else Halved(w / 2, k - 1) }

  lemma {:induction false} HalvedIs(w: nat, k: nat)
    ensures Halved(w, k) == w / Pow2(k)
  {
    if k > 0 {
      HalvedIs(w / 2, k - 1);
      HalvedQuotient(w, Pow2(k - 1));
    }
  }

  /** Bit i is the parity of the number divided by 2^i. */
  lemma {:induction false} BitIs(w: nat, i: nat)
    ensures Bit(w, i) == (w / Pow2(i)) % 2
  {
    if i > 0 {
      BitIs(w / 2, i - 1);
      HalvedQuotient(w, Pow2(i - 1));
    }
  }

  lemma HalvedQuotient(w: nat, p: nat)
    requires p >= 1
    ensures w / (2 * p) == (w / 2) / p
  {
    var h := w / 2;
    assert w == 2 * h + w % 2;
    assert h == p * (h / p) + h % p;
    assert w == 2 * p * (h / p) + (2 * (h % p) + w % 2);
    QuotientUnique(w, 2 * p, h / p, 2 * (h % p) + w % 2);
  }

  lemma QuotientUnique(w: int, m: int, q: int, r: int)
    requires m > 0 && w == m * q + r && 0 <= r < m
    ensures w / m == q
  {
    ModuloUnique(w, m, q, r);
    assert m * (w / m) == m * q;
    MultipleSmall(m, w / m - q);
  }

  /** A word is its 32 bits. */
  lemma {:induction false} BitsDecide(a: nat, b: nat, n: nat)
    requires a < Pow2(n) && b < Pow2(n) && forall i | 0 <= i < n :: Bit(a, i) == Bit(b, i)
    ensures a == b
  {
    if n > 0 {
      assert Bit(a, 0) == Bit(b, 0);
      forall i | 0 <= i < n - 1 ensures Bit(a / 2, i) == Bit(b / 2, i) { assert Bit(a, i + 1) == Bit(b, i + 1); }
      BitsDecide(a / 2, b / 2, n - 1);
    }
  }

  lemma {:induction false} BitwiseBits(op: BitOp, a: nat, b: nat, n: nat, i: nat)
    requires i < n
    ensures Bit(Bitwise(op, a, b, n), i) == if CombineBits(op, Bit(a, i) == 1, Bit(b, i) == 1) then 1 else 0
  {
    var r := Bitwise(op, a, b, n);
    var low := if CombineBits(op, a % 2 == 1, b % 2 == 1) then 1 else 0;
    assert r == low + 2 * Bitwise(op, a / 2, b / 2, n - 1);
    if i > 0 {
      BitwiseBits(op, a / 2, b / 2, n - 1, i - 1);
    }
  }

  lemma AndBits(a: Word, b: Word, i: nat)
    requires i < 32
    ensures Bit(And(a, b), i) == if Bit(a, i) == 1 && Bit(b, i) == 1 then 1 else 0
  {
    BitwiseBits(AndBit, a, b, 32, i);
  }

  lemma OrBits(a: Word, b: Word, i: nat)
    requires i < 32
    ensures Bit(Or(a, b), i) == if Bit(a, i) == 1 || Bit(b, i) == 1 then 1 else 0
  {
    BitwiseBits(OrBit, a, b, 32, i);
  }

  lemma XorBits(a: Word, b: Word, i: nat)
    requires i < 32
    ensures Bit(Xor(a, b), i) == if Bit(a, i) != Bit(b, i) then 1 else 0
  {
    BitwiseBits(XorBit, a, b, 32, i);
  }

  lemma {:induction false} ComplementBits(a: nat, n: nat, i: nat)
    requires a < Pow2(n) && i < n
    ensures Bit(Pow2(n) - 1 - a, i) == 1 - Bit(a, i)
  {
    var c := Pow2(n) - 1 - a;
    assert Pow2(n) == 2 * Pow2(n - 1);
    assert c % 2 == 1 - a % 2 && c / 2 == Pow2(n - 1) - 1 - a / 2;
    if i > 0 {
      ComplementBits(a / 2, n - 1, i - 1);
    }
  }

  lemma {:induction false} LowBits(x: nat, n: nat, i: nat)
    requires i < n
    ensures Bit(x % Pow2(n), i) == Bit(x, i)
  {
    var r := x % Pow2(n);
    HalfModulo(x, n);
    assert r % 2 == x % 2 && r / 2 == (x / 2) % Pow2(n - 1);
    if i > 0 {
      LowBits(x / 2, n - 1, i - 1);
    }
  }

  lemma {:induction false} RaisedBits(a: nat, k: nat, i: nat)
    ensures Bit(a * Pow2(k), i) == if i < k then 0 else Bit(a, i - k)
  {
    if k > 0 {
      var x := a * Pow2(k);
      assert x == 2 * (a * Pow2(k - 1));
      if i > 0 {
        RaisedBits(a, k - 1, i - 1);
      }
    }
  }

  lemma {:induction false} LoweredBits(a: nat, k: nat, i: nat)
    ensures Bit(Halved(a, k), i) == Bit(a, i + k)
  {
    if k > 0 { LoweredBits(a / 2, k - 1, i); }
  }

  lemma {:induction false} NoHighBits(a: nat, n: nat, i: nat)
    requires a < Pow2(n) && n <= i
    ensures Bit(a, i) == 0
    decreases i
  {
    if i > 0 { NoHighBits(a / 2, if n == 0 then 0 else n - 1, i - 1); }
  }

  // ----- the operations

  /** A left shift moves each bit up, a right shift moves it down; the amount is taken modulo 32. */
  lemma ShiftBits(a: Word, k: Word, i: nat)
    requires i < 32
    ensures Bit(Apply(ShlOp, [a, k]), i) == if i < k % 32 then 0 else Bit(a, i - k % 32)
    ensures Bit(Apply(LshrOp, [a, k]), i) == if i + k % 32 < 32 then Bit(a, i + k % 32) else 0
  {
    Pow2Of32();
    LowBits(a * Pow2(k % 32), 32, i);
    RaisedBits(a, k % 32, i);
    HalvedIs(a, k % 32);
    LoweredBits(a, k % 32, i);
    if i + k % 32 >= 32 { NoHighBits(a, 32, i + k % 32); }
  }

  /** How many of the operands have bit i. */
  function Ones(row: seq<Word>, i: nat): (n: nat)
    ensures n <= |row|
  {
    if row == [] then 0 else Ones(row[..|row| - 1], i) + Bit(row[|row| - 1], i)
  }

  /** Bit i is set in a conjunction when every operand has it. */
  lemma {:induction false} ConjunctionBits(row: seq<Word>, i: nat)
    requires i < 32
    ensures Bit(Apply(AndOp, row), i) == if Ones(row, i) == |row| then 1 else 0
  {
    if row == [] {
      Pow2Of32();
      ComplementBits(0, 32, i);
      NoHighBits(0, 0, i);
    } else {
      ConjunctionBits(row[..|row| - 1], i);
      AndBits(Apply(AndOp, row[..|row| - 1]), row[|row| - 1], i);
    }
  }

  /** Bit i is set in a disjunction when some operand has it. */
  lemma {:induction false} DisjunctionBits(row: seq<Word>, i: nat)
    requires i < 32
    ensures Bit(Apply(OrOp, row), i) == if Ones(row, i) > 0 then 1 else 0
  {
    if row == [] {
      NoHighBits(0, 0, i);
    } else {
      DisjunctionBits(row[..|row| - 1], i);
      OrBits(Apply(OrOp, row[..|row| - 1]), row[|row| - 1], i);
    }
  }

  /** Bit i is set in an exclusive or when an odd number of operands have it. */
  lemma {:induction false} ParityBits(row: seq<Word>, i: nat)
    requires i < 32
    ensures Bit(Apply(XorOp, row), i) == Ones(row, i) % 2
  {
    if row == [] {
      NoHighBits(0, 0, i);
    } else {
      ParityBits(row[..|row| - 1], i);
      XorBits(Apply(XorOp, row[..|row| - 1]), row[|row| - 1], i);
    }
  }

  lemma NotBits(a: Word, i: nat)
    requires i < 32
    ensures Bit(Apply(NotOp, [a]), i) == 1 - Bit(a, i)
  {
    Pow2Of32();
    ComplementBits(a, 32, i);
  }

  function Product(row: seq<Word>): int { if row == [] then 1 else Product(row[..|row| - 1]) * row[|row| - 1] as int }

  function Total(row: seq<Word>): int { if row == [] then 0 else Total(row[..|row| - 1]) + row[|row| - 1] as int }

  /** Equal up to a multiple of 2^32. */
  ghost predicate Congruent(x: int, y: int) { exists m: int :: x == y + m * 0x1_0000_0000 }

  lemma WrapIsCongruent(x: int)
    ensures Congruent(Wrap(x), x)
  {
    assert Wrap(x) == x + (-(x / 0x1_0000_0000)) * 0x1_0000_0000;
  }

  lemma CongruentTransitive(x: int, y: int, z: int)
    requires Congruent(x, y) && Congruent(y, z)
    ensures Congruent(x, z)
  {
    var m: int :| x == y + m * 0x1_0000_0000;
    var n: int :| y == z + n * 0x1_0000_0000;
    assert x == z + (m + n) * 0x1_0000_0000;
  }

  lemma CongruentTimes(x: int, y: int, z: int)
    requires Congruent(x, y)
    ensures Congruent(x * z, y * z)
  {
    var m: int :| x == y + m * 0x1_0000_0000;
    assert x * z == y * z + (m * z) * 0x1_0000_0000;
  }

  lemma CongruentPlus(x: int, y: int, z: int)
    requires Congruent(x, y)
    ensures Congruent(x + z, y + z)
  {
    var m: int :| x == y + m * 0x1_0000_0000;
    assert x + z == y + z + m * 0x1_0000_0000;
  }

  /** Multiplication and addition are those of the integers, modulo 2^32, for any number of operands. */
  lemma {:induction false} ProductIsModular(row: seq<Word>)
    ensures Congruent(Apply(MulOp, row), Product(row))
  {
    if row == [] {
      assert 1 == 1 + 0 * 0x1_0000_0000;
    } else {
      var rest, last: int := row[..|row| - 1], row[|row| - 1];
      var before: int := Apply(MulOp, rest);
      ProductIsModular(rest);
      WrapIsCongruent(before * last);
      CongruentTimes(before, Product(rest), last);
      CongruentTransitive(Apply(MulOp, row), before * last, Product(row));
    }
  }

  lemma {:induction false} SumIsModular(row: seq<Word>)
    ensures Congruent(SumOf(row), Total(row))
  {
    if row == [] {
      assert 0 == 0 + 0 * 0x1_0000_0000;
    } else {
      var rest, last: int := row[..|row| - 1], row[|row| - 1];
      var before: int := SumOf(rest);
      SumIsModular(rest);
      WrapIsCongruent(before + last);
      CongruentPlus(before, Total(rest), last);
      CongruentTransitive(SumOf(row), before + last, Total(row));
    }
  }

  lemma LowProductIsModular(a: Word, b: Word)
    ensures Congruent(Apply(MulLowOp, [a, b]), a as int * b as int)
  {
    WrapIsCongruent(a as int * b as int);
  }

  /** Negation is the additive inverse, and a truth value becomes one bit. */
  lemma UnaryOperations(a: Word)
    ensures (a + Apply(NegOp, [a])) % 0x1_0000_0000 == 0
    ensures Apply(BoolToBitOp, [a]) == 0 <==> a == 0
    ensures Apply(BoolToBitOp, [a]) <= 1
  {
  }

  /** A difference is what has to be added to get the first operand back, and a choice takes its second operand when the
      first is not zero. */
  lemma DifferenceAndChoice(node: Node, m: Machine, i: nat, row: seq<Word>)
    requires ArityOk(node) && ValidMachine(m) && |row| == |node.operands|
    ensures node.op.Sub? ==> (Meaning(node, m, i, row) + row[1]) % 0x1_0000_0000 == row[0]
    ensures node.op.Ite? && row[0] == 0 ==> Meaning(node, m, i, row) == row[2]
    ensures node.op.Ite? && row[0] != 0 ==> Meaning(node, m, i, row) == row[1]
  {
    if node.op.Sub? {
      var x: int, y: int := row[0], row[1];
      WrapAdd(x - y, y);
      WrapOfWord(row[0]);
    }
  }

  // ----- products lose nothing within the limit

  predicate ScalarValues(arguments: seq<Value>) {
    forall j | 0 <= j < |arguments| :: arguments[j].Finite? && arguments[j].refs == {} && arguments[j].scalars != {}
  }

  predicate IsChoice(arguments: seq<Value>, row: seq<Word>) {
    |row| == |arguments| && forall j | 0 <= j < |row| :: arguments[j].Finite? && row[j] in arguments[j].scalars
  }

  /** How many choices there are. */
  function ChoiceCount(arguments: seq<Value>): nat
    requires ScalarValues(arguments)
  {
    if arguments == [] then 1 else ChoiceCount(arguments[..|arguments| - 1]) * |arguments[|arguments| - 1].scalars|
  }

  function Extended(rows: set<seq<Word>>, words: set<Word>): set<seq<Word>> { set row, w | row in rows && w in words :: row + [w] }

  function Appended(rows: set<seq<Word>>, w: Word): set<seq<Word>> { set row | row in rows :: row + [w] }

  lemma {:induction false} AppendedCard(rows: set<seq<Word>>, w: Word)
    ensures |Appended(rows, w)| == |rows|
  {
    if rows != {} {
      var row :| row in rows;
      AppendedCard(rows - {row}, w);
      assert Appended(rows, w) == Appended(rows - {row}, w) + {row + [w]};
      assert row + [w] !in Appended(rows - {row}, w) by {
        forall other | other in rows - {row} ensures other + [w] != row + [w] { assert (other + [w])[..|other|] == other; }
      }
    }
  }

  lemma {:induction false} ExtendedCard(rows: set<seq<Word>>, words: set<Word>)
    ensures |Extended(rows, words)| == |rows| * |words|
  {
    if words == {} {
      assert Extended(rows, words) == {};
    } else {
      var w :| w in words;
      var rest := words - {w};
      ExtendedCard(rows, rest);
      ExtendedStep(rows, words, w);
      assert words == rest + {w} && |words| == |rest| + 1;
      Distributed(|rows|, |rest|);
    }
  }

  lemma ExtendedStep(rows: set<seq<Word>>, words: set<Word>, w: Word)
    requires w in words
    ensures |Extended(rows, words)| == |Extended(rows, words - {w})| + |rows|
  {
    AppendedCard(rows, w);
    ExtendedSplit(rows, words, w);
    ExtendedApart(rows, words - {w}, w);
    DisjointCard(Extended(rows, words - {w}), Appended(rows, w));
  }

  lemma ExtendedHolds(rows: set<seq<Word>>, words: set<Word>, row: seq<Word>, w: Word)
    requires row in rows && w in words
    ensures row + [w] in Extended(rows, words)
  {
  }

  lemma ExtendedSplit(rows: set<seq<Word>>, words: set<Word>, w: Word)
    requires w in words
    ensures Extended(rows, words) == Extended(rows, words - {w}) + Appended(rows, w)
  {
  }

  lemma ExtendedApart(rows: set<seq<Word>>, rest: set<Word>, w: Word)
    requires w !in rest
    ensures Extended(rows, rest) !! Appended(rows, w)
  {
    forall row | row in Extended(rows, rest) ensures row !in Appended(rows, w) { assert row[|row| - 1] in rest; }
  }

  lemma DisjointCard<T>(a: set<T>, b: set<T>)
    requires a !! b
    ensures |a + b| == |a| + |b|
  {
  }

  lemma Distributed(n: nat, k: nat)
    ensures n * (k + 1) == n * k + n
  {
  }

  lemma Multiplied(n: nat, k: nat)
    requires k >= 1
    ensures n <= n * k
  {
  }

  /** The rows are the choices, given up exactly when there are more than the limit. */
  lemma {:induction false} RowsExactly(arguments: seq<Value>, limit: nat)
    requires ScalarValues(arguments)
    ensures ScalarRows(arguments, limit).Some? <==> arguments == [] || ChoiceCount(arguments) <= limit
    ensures ScalarRows(arguments, limit).Some? ==> |ScalarRows(arguments, limit).value| == ChoiceCount(arguments)
    ensures ScalarRows(arguments, limit).Some? ==> forall row :: row in ScalarRows(arguments, limit).value <==> IsChoice(arguments, row)
  {
    if arguments != [] {
      var n := |arguments| - 1;
      var last := arguments[n].scalars;
      RowsExactly(arguments[..n], limit);
      SomeMember(last);
      Multiplied(ChoiceCount(arguments[..n]), |last|);
      if ScalarRows(arguments[..n], limit).Some? {
        var rows := ScalarRows(arguments[..n], limit).value;
        ExtendedCard(rows, last);
        assert (set row, w | row in rows && w in last :: row + [w]) == Extended(rows, last);
        forall row ensures row in Extended(rows, last) <==> IsChoice(arguments, row) { ChoiceSplit(arguments, rows, row); }
      }
    }
  }

  lemma SomeMember(words: set<Word>)
    requires words != {}
    ensures |words| >= 1
  {
    var w :| w in words;
    SubsetCard({w}, words);
  }

  lemma ChoiceSplit(arguments: seq<Value>, rows: set<seq<Word>>, row: seq<Word>)
    requires ScalarValues(arguments) && arguments != []
    requires forall r :: r in rows <==> IsChoice(arguments[..|arguments| - 1], r)
    ensures row in Extended(rows, arguments[|arguments| - 1].scalars) <==> IsChoice(arguments, row)
  {
    var n := |arguments| - 1;
    if IsChoice(arguments, row) {
      assert IsChoice(arguments[..n], row[..n]);
      ExtendedHolds(rows, arguments[n].scalars, row[..n], row[n]);
      assert row == row[..n] + [row[n]];
    }
    if row in Extended(rows, arguments[n].scalars) {
      var front, w :| front in rows && w in arguments[n].scalars && row == front + [w];
      assert IsChoice(arguments[..n], front);
      forall j | 0 <= j < |row| ensures row[j] in arguments[j].scalars {
        if j < n { assert row[j] == front[j] && arguments[..n][j] == arguments[j]; }
      }
    }
  }

  ghost predicate IsResult(arguments: seq<Value>, op: ProductOp, w: Word)
    requires op.NotOp? || op.NegOp? || op.BoolToBitOp? ==> |arguments| >= 1
    requires op.ShlOp? || op.LshrOp? || op.MulLowOp? ==> |arguments| >= 2
  {
    exists row :: IsChoice(arguments, row) && w == Apply(op, row)
  }

  /** On known scalars a product is exactly the results of the operation on all choices, unless there are more choices
      than the limit allows. */
  lemma ProductExactly(arguments: seq<Value>, op: ProductOp, limit: nat)
    requires op.NotOp? || op.NegOp? || op.BoolToBitOp? ==> |arguments| >= 1
    requires op.ShlOp? || op.LshrOp? || op.MulLowOp? ==> |arguments| >= 2
    requires ScalarValues(arguments) && arguments != [] && !op.Unmodelled?
    ensures ChoiceCount(arguments) > limit ==> ScalarProduct(arguments, op, limit) == Conflict
    ensures ChoiceCount(arguments) <= limit ==>
              (var r := ScalarProduct(arguments, op, limit);
               r.Finite? && r.refs == {} && forall w :: w in r.scalars <==> IsResult(arguments, op, w))
  {
    RowsExactly(arguments, limit);
    if ChoiceCount(arguments) > limit {
      TooManyChoices(arguments, op, limit);
    } else {
      var products := ProductShape(arguments, op, limit);
      ResultsFit(arguments, op, limit, ScalarRows(arguments, limit).value, products);
    }
  }

  lemma TooManyChoices(arguments: seq<Value>, op: ProductOp, limit: nat)
    requires op.NotOp? || op.NegOp? || op.BoolToBitOp? ==> |arguments| >= 1
    requires op.ShlOp? || op.LshrOp? || op.MulLowOp? ==> |arguments| >= 2
    requires ScalarValues(arguments) && ScalarRows(arguments, limit).None?
    ensures ScalarProduct(arguments, op, limit) == Conflict
  {
    NoReferences(arguments);
  }

  lemma NoReferences(arguments: seq<Value>)
    requires ScalarValues(arguments)
    ensures forall v | v in arguments :: v.Finite? && v.refs == {}
    ensures !exists v | v in arguments :: v.Conflict? || (v.Finite? && v.refs != {})
    ensures !exists v | v in arguments :: !v.Finite?
  {
    forall v | v in arguments ensures v.Finite? && v.refs == {} { }
  }

  lemma ProductShape(arguments: seq<Value>, op: ProductOp, limit: nat) returns (products: set<Word>)
    requires op.NotOp? || op.NegOp? || op.BoolToBitOp? ==> |arguments| >= 1
    requires op.ShlOp? || op.LshrOp? || op.MulLowOp? ==> |arguments| >= 2
    requires ScalarValues(arguments) && !op.Unmodelled? && ScalarRows(arguments, limit).Some?
    ensures ScalarProduct(arguments, op, limit) == if |products| > limit then Conflict else Canonical(products, {}, limit)
    ensures forall w :: w in products <==>
              exists row :: row in ScalarRows(arguments, limit).value && |row| == |arguments| && w == Apply(op, row)
  {
    NoReferences(arguments);
    products := set row | row in ScalarRows(arguments, limit).value && |row| == |arguments| :: Apply(op, row);
  }

  lemma ResultsFit(arguments: seq<Value>, op: ProductOp, limit: nat, rows: set<seq<Word>>, products: set<Word>)
    requires op.NotOp? || op.NegOp? || op.BoolToBitOp? ==> |arguments| >= 1
    requires op.ShlOp? || op.LshrOp? || op.MulLowOp? ==> |arguments| >= 2
    requires ScalarValues(arguments) && |rows| <= limit && forall row :: row in rows <==> IsChoice(arguments, row)
    requires forall w :: w in products <==> exists row :: row in rows && |row| == |arguments| && w == Apply(op, row)
    ensures |products| <= limit && Canonical(products, {}, limit) == Finite(products, {})
    ensures forall w :: w in products <==> IsResult(arguments, op, w)
  {
    var first := FirstChoice(arguments);
    assert first in rows && Apply(op, first) in products;
    ImageCard(rows, (row: seq<Word>) => if |row| == |arguments| then Apply(op, row) else 0, products);
    ScalarsFit(products, limit);
    forall w ensures w in products <==> IsResult(arguments, op, w) {
      if IsResult(arguments, op, w) {
        var row :| IsChoice(arguments, row) && w == Apply(op, row);
        assert row in rows;
      }
    }
  }

  lemma ScalarsFit(scalars: set<Word>, limit: nat)
    requires scalars != {} && |scalars| <= limit
    ensures Canonical(scalars, {}, limit) == Finite(scalars, {})
  {
    var none: set<Atom> := {};
    assert !HasView(none) && |none| == 0;
  }

  lemma {:induction false} FirstChoice(arguments: seq<Value>) returns (row: seq<Word>)
    requires ScalarValues(arguments)
    ensures IsChoice(arguments, row)
  {
    if arguments == [] {
      row := [];
    } else {
      var front := FirstChoice(arguments[..|arguments| - 1]);
      var w :| w in arguments[|arguments| - 1].scalars;
      row := front + [w];
    }
  }

  // ----- references

  /** The top bit counts negative. */
  function AsSigned(d: Word): int { if Bit(d, 31) == 1 then d - 0x1_0000_0000 else d }

  lemma SignedIs(d: Word)
    ensures SignedDelta(d, false) == AsSigned(d) && SignedDelta(d, true) == -AsSigned(d)
  {
    BitIs(d, 31);
    assert Pow2(31) == 0x8000_0000 by { Pow2Of32(); }
    QuotientUnique(d, Pow2(31), if d < 0x8000_0000 then 0 else 1, if d < 0x8000_0000 then d else d - 0x8000_0000);
  }

  lemma OneSidedAdjusts(x: Value, y: Value, subtract: bool, limit: nat)
    requires x.Finite? && y.Finite? && (x.refs == {} || y.refs == {}) && !AnyDisplaced(x.refs, y.scalars)
    requires if subtract then x.scalars == {} || y.refs == {} else !AnyDisplaced(y.refs, x.scalars)
    ensures AdjustedReference(x, y, subtract, limit)
         == Canonical(AdjustedScalars(x, y, subtract), AdjustedRefs(x, y, subtract), limit)
  {
    assert !AdjustmentConflicts(x, y, subtract);
  }

  /** Adding a scalar on the right moves a reference by its signed value, subtracting it moves it back. */
  lemma ReferenceMoves(id: Identity, o: int, d: Word, subtract: bool, limit: nat)
    requires limit > 0
    ensures AdjustedReference(Finite({}, {Object(id, o)}), Finite({d}, {}), subtract, limit)
         == Finite({}, {Object(id, if subtract then o - AsSigned(d) else o + AsSigned(d))})
  {
    SignedIs(d);
    var moved := o + SignedDelta(d, subtract);
    MovedReference(id, o, d, subtract, limit, moved);
    assert moved == if subtract then o - AsSigned(d) else o + AsSigned(d);
  }

  lemma MovedReference(id: Identity, o: int, d: Word, subtract: bool, limit: nat, moved: int)
    requires limit > 0 && moved == o + SignedDelta(d, subtract)
    ensures AdjustedReference(Finite({}, {Object(id, o)}), Finite({d}, {}), subtract, limit) == Finite({}, {Object(id, moved)})
  {
    OneSidedAdjusts(Finite({}, {Object(id, o)}), Finite({d}, {}), subtract, limit);
    MovedAtoms(id, o, d, subtract);
    SingletonCanonical(Object(id, moved), limit);
  }

  lemma MovedAtoms(id: Identity, o: int, d: Word, subtract: bool)
    ensures AdjustedScalars(Finite({}, {Object(id, o)}), Finite({d}, {}), subtract) == {}
    ensures AdjustedRefs(Finite({}, {Object(id, o)}), Finite({d}, {}), subtract) == {Object(id, o + SignedDelta(d, subtract))}
  {
    var moved, refs: set<Atom>, deltas: set<Word> := Object(id, o + SignedDelta(d, subtract)), {Object(id, o)}, {d};
    assert MovedRefs(refs, deltas, subtract) == {moved} by { assert Shifted(Object(id, o), SignedDelta(d, subtract)) == moved; }
    var none: set<Atom> := {};
    assert MovedRefs(none, {}, false) == {};
  }

  /** A scalar on the left moves it just so. */
  lemma ReferenceMovesFromLeft(id: Identity, o: int, d: Word, limit: nat)
    requires limit > 0
    ensures AdjustedReference(Finite({d}, {}), Finite({}, {Object(id, o)}), false, limit) == Finite({}, {Object(id, o + AsSigned(d))})
  {
    SignedIs(d);
    var x, y, moved := Finite({d}, {}), Finite({}, {Object(id, o)}), Object(id, o + SignedDelta(d, false));
    OneSidedAdjusts(x, y, false, limit);
    assert MovedRefs(y.refs, x.scalars, false) == {moved} by { assert Shifted(Object(id, o), SignedDelta(d, false)) == moved; }
    assert AdjustedScalars(x, y, false) == {};
    assert AdjustedRefs(x, y, false) == {moved};
    SingletonCanonical(moved, limit);
  }

  /** References to one object differ by their offsets. */
  lemma ReferencesDiffer(id: Identity, o: int, o': int, limit: nat)
    requires limit > 0
    ensures AdjustedReference(Finite({}, {Object(id, o)}), Finite({}, {Object(id, o')}), true, limit) == Finite({Wrap(o - o')}, {})
  {
    var x, y := Finite({}, {Object(id, o)}), Finite({}, {Object(id, o')});
    assert !AdjustmentConflicts(x, y, true);
    assert AdjustedScalars(x, y, true) == {Wrap(o - o')};
    assert AdjustedRefs(x, y, true) == {};
    var none: set<Atom> := {};
    assert !HasView(none) && |{Wrap(o - o')}| + |none| == 1;
  }

  /** Where nothing makes a constant ambiguous or misread, its value allows that constant and nothing else. */
  lemma ConstantExact(p: Placement, catalog: CodeCatalog, value: Word, limit: nat, w: Word)
    requires PlacedBy(p, catalog) && limit > 0 && !RawCodeConstant(catalog, value, limit)
    requires |ConstantAtoms(catalog, value)| <= 1
    ensures Denotes(p, ClassifyScalar(catalog, value, limit), w) <==> w == value
  {
    ConstantSoundExactly(p, catalog, value, limit);
    var atoms := ConstantAtoms(catalog, value);
    if |atoms| == 0 {
      var none: set<Atom> := {};
      assert !HasView(none) && |{value}| + |none| == 1;
    } else {
      var a := atoms[0];
      SingletonCanonical(a, limit);
      NoViewAmong(catalog, value);
      assert AtomDenotes(p, a, value);
    }
  }

  lemma NoViewAmong(catalog: CodeCatalog, value: Word)
    ensures forall a | a in ConstantAtoms(catalog, value) :: !a.View?
  {
    ObjectsNoView(catalog.objects, value);
  }

  lemma {:induction false} ObjectsNoView(objects: seq<CatalogObject>, value: Word)
    ensures forall a | a in ObjectAtoms(objects, value) :: !a.View?
  {
    if objects != [] { ObjectsNoView(objects[1..], value); }
  }

  /** Masking one object reference gives one reference, which is the masked address and nothing else. */
  lemma AlignedExact(p: Placement, id: Identity, o: int, mask: Word, limit: nat, w: Word)
    requires IsAlignmentMask(mask) && limit > 0
    ensures (var reference, masks := Finite({}, {Object(id, o)}), Finite({mask}, {});
             && AlignableBy(reference, masks)
             && (Denotes(p, AlignedBy(reference, masks, limit), w) <==> w == And(Wrap(Address(p, id) + o), mask)))
  {
    AlignedOne(id, o, mask, limit);
    AlignedAtomDenotes(p, Object(id, o), mask, Wrap(Address(p, id) + o));
    OneReference(p, AlignedAtom(Object(id, o), mask), w, And(Wrap(Address(p, id) + o), mask));
  }

  lemma AlignedOne(id: Identity, o: int, mask: Word, limit: nat)
    requires IsAlignmentMask(mask) && limit > 0
    ensures AlignableBy(Finite({}, {Object(id, o)}), Finite({mask}, {}))
    ensures AlignedBy(Finite({}, {Object(id, o)}), Finite({mask}, {}), limit) == Finite({}, {AlignedAtom(Object(id, o), mask)})
  {
    var a, reference, masks := Object(id, o), Finite({}, {Object(id, o)}), Finite({mask}, {});
    assert reference.refs == {a} && a in reference.refs && |masks.scalars| == 1;
    assert (set a, m | a in reference.refs && m in masks.scalars :: AlignedAtom(a, m)) == {AlignedAtom(a, mask)};
    SingletonCanonical(AlignedAtom(a, mask), limit);
  }

  lemma OneReference(p: Placement, a: Atom, w: Word, x: Word)
    requires !a.View? && AtomDenotes(p, a, x)
    ensures Denotes(p, Finite({}, {a}), w) <==> w == x
  {
  }
}
