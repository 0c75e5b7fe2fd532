/** Plan validation allows additions of two to four operands and the evaluator adds two: exactly when its result is
    sound nevertheless. */
module Additions {
  import opened Words
  import opened Identities
  import opened Sets
  import opened Values
  import opened Expressions

  // ----- known scalars

  lemma SumSnoc(row: seq<Word>, w: Word)
    ensures SumOf(row + [w]) == Wrap(SumOf(row) as int + w as int)
  {
    assert (row + [w])[..|row|] == row;
  }

  lemma {:induction false} SumSplit(a: seq<Word>, b: seq<Word>)
    ensures SumOf(a + b) == Wrap(SumOf(a) as int + SumOf(b) as int)
    decreases |b|
  {
    if b == [] {
      assert a + b == a;
      WrapOfWord(SumOf(a));
    } else {
      var n := |b| - 1;
      SumSplit(a, b[..n]);
      SumSplitMore(a, b[..n], b[n]);
      assert b == b[..n] + [b[n]];
    }
  }

  lemma SumSplitMore(a: seq<Word>, b: seq<Word>, w: Word)
    requires SumOf(a + b) == Wrap(SumOf(a) as int + SumOf(b) as int)
    ensures SumOf(a + (b + [w])) == Wrap(SumOf(a) as int + SumOf(b + [w]) as int)
  {
    SumSnoc(b, w);
    RegroupedSums(SumOf(a), SumOf(b), w, SumOf(a + b), SumOf(b + [w]));
    SumSnocLast(a, b, w);
  }

  lemma SumSnocLast(a: seq<Word>, b: seq<Word>, w: Word)
    ensures SumOf(a + (b + [w])) == Wrap(SumOf(a + b) as int + w as int)
  {
    assert a + (b + [w]) == a + b + [w];
    SumSnoc(a + b, w);
  }

  lemma RegroupedSums(x: Word, y: Word, z: Word, front: Word, back: Word)
    requires front == Wrap(x + y) && back == Wrap(y + z)
    ensures Wrap(front + z) == Wrap(x + back)
  {
    WrapRegroup(x, y, z);
  }

  lemma SingletonScalar(w: Word, limit: nat)
    requires limit > 0
    ensures Canonical({w}, {}, limit) == Finite({w}, {})
  {
    var none: set<Atom> := {};
    assert !HasView(none);
    assert |{w}| + |none| == 1;
  }

  lemma AddOfScalars(x: Word, y: Word, limit: nat)
    requires limit > 0
    ensures AdjustedReference(Finite({x}, {}), Finite({y}, {}), false, limit) == Finite({Wrap(x + y)}, {})
  {
    var left, right := Finite({x}, {}), Finite({y}, {});
    assert !AdjustmentConflicts(left, right, false);
    assert AdjustedScalars(left, right, false) == {Wrap(x + y)};
    assert AdjustedRefs(left, right, false) == {};
    SingletonScalar(Wrap(x + y), limit);
  }

  lemma SumOfRow(x: Word, y: Word, rest: seq<Word>)
    ensures SumOf([x, y] + rest) == Wrap(Wrap(x as int + y as int) as int + SumOf(rest) as int)
  {
    SumSplit([x, y], rest);
    SumOfPair(x, y);
  }

  lemma SumUnchanged(w: int, rest: int)
    requires 0 <= w < WORD_SIZE && 0 <= rest < WORD_SIZE
    ensures Wrap(w + rest) == w <==> rest == 0
  {
  }

  /** The evaluator adds two operands where plan validation allows up to four.  On known scalars its result
      is sound exactly when the operands it ignores sum to zero. */
  lemma AdditionSoundExactly(p: Placement, x: Word, y: Word, ignored: seq<Word>, limit: nat)
    requires limit > 0
    ensures Denotes(p, AdjustedReference(Finite({x}, {}), Finite({y}, {}), false, limit), SumOf([x, y] + ignored))
        <==> SumOf(ignored) == 0
  {
    SumOfRow(x, y, ignored);
    AddOfScalars(x, y, limit);
    OneScalar(p, Wrap(x as int + y as int), SumOf(ignored), SumOf([x, y] + ignored));
  }

  lemma OneScalar(p: Placement, s: Word, rest: Word, sum: Word)
    requires sum == Wrap(s + rest)
    ensures Denotes(p, Finite({s}, {}), sum) <==> rest == 0
  {
    SumUnchanged(s, rest);
  }

  function PairSums(xs: set<Word>, ys: set<Word>): set<Word> { set x, y | x in xs && y in ys :: Wrap(x + y) }

  lemma AddOfScalarSets(xs: set<Word>, ys: set<Word>, limit: nat)
    requires xs != {} && ys != {}
    ensures AdjustedReference(Finite(xs, {}), Finite(ys, {}), false, limit)
         == if |PairSums(xs, ys)| <= limit then Finite(PairSums(xs, ys), {}) else Conflict
  {
    var left, right, sums := Finite(xs, {}), Finite(ys, {}), PairSums(xs, ys);
    var none: set<Atom> := {};
    assert !AdjustmentConflicts(left, right, false);
    assert AdjustedScalars(left, right, false) == sums;
    assert AdjustedRefs(left, right, false) == none;
    assert sums != {} by {
      var x :| x in xs;
      var y :| y in ys;
      assert Wrap(x + y) in sums;
    }
    assert Collapse(none) == none && !HasView(none);
  }

  /** Every choice of operands lands in the abstract value. */
  ghost predicate AllSumsDenoted(p: Placement, v: Value, xs: set<Word>, ys: set<Word>, rests: set<seq<Word>>) {
    forall x, y, rest {:trigger SumDenoted(p, v, x, y, rest)} | x in xs && y in ys && rest in rests ::
      SumDenoted(p, v, x, y, rest)
  }

  predicate SumDenoted(p: Placement, v: Value, x: Word, y: Word, rest: seq<Word>) { Denotes(p, v, SumOf([x, y] + rest)) }

  /** The sums of the first two operands absorb whatever the ignored ones add. */
  predicate SumsAbsorb(sums: set<Word>, rests: set<seq<Word>>) {
    forall s, rest {:trigger Absorbs(sums, s, rest)} | s in sums && rest in rests :: Absorbs(sums, s, rest)
  }

  predicate Absorbs(sums: set<Word>, s: Word, rest: seq<Word>) { Wrap(s + SumOf(rest)) in sums }

  lemma OneSumDenoted(p: Placement, sums: set<Word>, x: Word, y: Word, rest: seq<Word>)
    ensures SumDenoted(p, Finite(sums, {}), x, y, rest) <==> Absorbs(sums, Wrap(x + y), rest)
  {
    SumOfRow(x, y, rest);
  }

  lemma PairOf(xs: set<Word>, ys: set<Word>, s: Word) returns (x: Word, y: Word)
    requires s in PairSums(xs, ys)
    ensures x in xs && y in ys && s == Wrap(x + y)
  {
    x, y :| x in xs && y in ys && s == Wrap(x + y);
  }

  lemma DenotedSumsAbsorb(p: Placement, xs: set<Word>, ys: set<Word>, sums: set<Word>, rests: set<seq<Word>>)
    requires sums == PairSums(xs, ys) && AllSumsDenoted(p, Finite(sums, {}), xs, ys, rests)
    ensures SumsAbsorb(sums, rests)
  {
    forall s, rest | s in sums && rest in rests ensures Absorbs(sums, s, rest) {
      var x, y := PairOf(xs, ys, s);
      assert SumDenoted(p, Finite(sums, {}), x, y, rest);
      OneSumDenoted(p, sums, x, y, rest);
    }
  }

  lemma AbsorbedSumsDenoted(p: Placement, xs: set<Word>, ys: set<Word>, sums: set<Word>, rests: set<seq<Word>>)
    requires sums == PairSums(xs, ys) && SumsAbsorb(sums, rests)
    ensures AllSumsDenoted(p, Finite(sums, {}), xs, ys, rests)
  {
    forall x, y, rest | x in xs && y in ys && rest in rests ensures SumDenoted(p, Finite(sums, {}), x, y, rest) {
      assert Wrap(x + y) in sums;
      assert Absorbs(sums, Wrap(x + y), rest);
      OneSumDenoted(p, sums, x, y, rest);
    }
  }

  /** On scalar alternatives an addition is sound exactly when the two-operand sums overflow the limit or absorb every
      sum of the ignored operands. */
  lemma AdditionSetsSoundExactly(p: Placement, xs: set<Word>, ys: set<Word>, rests: set<seq<Word>>, limit: nat)
    requires xs != {} && ys != {}
    ensures AllSumsDenoted(p, AdjustedReference(Finite(xs, {}), Finite(ys, {}), false, limit), xs, ys, rests)
        <==> |PairSums(xs, ys)| > limit || SumsAbsorb(PairSums(xs, ys), rests)
  {
    var sums := PairSums(xs, ys);
    AddOfScalarSets(xs, ys, limit);
    if |sums| <= limit {
      if AllSumsDenoted(p, Finite(sums, {}), xs, ys, rests) { DenotedSumsAbsorb(p, xs, ys, sums, rests); }
      if SumsAbsorb(sums, rests) { AbsorbedSumsDenoted(p, xs, ys, sums, rests); }
    }
  }

  /** A three-operand addition the evaluator gets wrong: 1 + 1 + 1 is not 2. */
  lemma ThreeOperandAddition(p: Placement, node: Node, env: Environment, m: Machine, i: nat, one: Value, row: seq<Word>)
    requires node == Node(Add, [0, 1, 2]) && one == Finite({1}, {}) && row == [1, 1, 1]
    requires ValidEnvironment(env) && ValidMachine(m) && env.limits(i) > 0
    ensures ArityOk(node) && !Denotes(p, Interpret(node, env, i, [one, one, one]), Meaning(node, m, i, row))
  {
    var ignored: seq<Word> := [1];
    SumOfOne(ignored);
    assert row == [1, 1] + ignored;
    AdditionSoundExactly(p, 1, 1, ignored, env.limits(i));
  }

  lemma SumOfOne(row: seq<Word>)
    requires |row| == 1
    ensures SumOf(row) == row[0]
  {
    assert row[..0] == [];
    WrapOfWord(row[0]);
  }

  // ----- operands that may hold references

  predicate Allows(v: Value) { !v.Bottom? && (v.Finite? ==> v.scalars != {} || v.refs != {}) }

  /** The value rules out no word, wherever objects are placed. */
  predicate AllowsAll(v: Value) { v.UnknownScalar? || v.Conflict? || (v.Finite? && HasView(v.refs)) }

  /** Every object the value names can be placed by itself. */
  predicate Unaligned(v: Value) { v.Finite? ==> forall a | a in v.refs :: !a.id.Aligned? }

  predicate ScalarsOnly(v: Value) { v.Finite? && v.refs == {} }

  predicate Exact(v: Value) { v.Finite? && !HasView(v.refs) }

  /** A choice of one word for each ignored operand. */
  ghost predicate ChosenRow(p: Placement, rests: seq<Value>, row: seq<Word>) {
    |row| == |rests| && forall k | 0 <= k < |row| :: Denotes(p, rests[k], row[k])
  }

  ghost predicate SumsSound(p: Placement, x: Value, y: Value, rests: seq<Value>, result: Value) {
    forall wx, wy, row {:trigger SumDenoted(p, result, wx, wy, row)}
      | Denotes(p, x, wx) && Denotes(p, y, wy) && ChosenRow(p, rests, row)
      :: SumDenoted(p, result, wx, wy, row)
  }

  /** The result allows the sum of all operands, whatever they are and wherever objects are placed. */
  ghost predicate SoundEverywhere(x: Value, y: Value, rests: seq<Value>, result: Value) {
    forall p: Placement :: SumsSound(p, x, y, rests, result)
  }

  /** A choice of scalars. */
  predicate ScalarRow(rests: seq<Value>, row: seq<Word>) {
    |row| == |rests| && forall k | 0 <= k < |row| :: rests[k].Finite? && row[k] in rests[k].scalars
  }

  predicate Lands(words: set<Word>, w: Word, s: Word) { Wrap(w + s) in words }

  /** Adding s leads from every word of a set to another of its words. */
  predicate Closed(words: set<Word>, s: Word) { forall w {:trigger Lands(words, w, s)} | w in words :: Lands(words, w, s) }

  /** Adding s leads every alternative to another one: scalars to scalars, offsets to offsets of the same object. */
  predicate AbsorbsWord(v: Value, s: Word) {
    && v.Finite? && Closed(v.scalars, s)
    && forall a {:trigger MovesInside(v.refs, a, s)} | a in v.refs :: MovesInside(v.refs, a, s)
  }

  predicate MovesInside(refs: set<Atom>, a: Atom, s: Word) {
    exists b | b in refs :: b.id == a.id && Wrap(OffsetOf(b)) == Wrap(OffsetOf(a) + s)
  }

  // ----- the words of an exact value

  function WordAt(p: Placement, a: Atom): Word { Wrap(Address(p, a.id) + OffsetOf(a)) }

  function WordsOf(p: Placement, v: Value): set<Word>
    requires v.Finite?
  {
    v.scalars + set a | a in v.refs :: WordAt(p, a)
  }

  lemma WordsDenoted(p: Placement, v: Value, w: Word)
    requires Exact(v)
    ensures Denotes(p, v, w) <==> w in WordsOf(p, v)
  {
    forall a | a in v.refs ensures AtomDenotes(p, a, w) <==> w == WordAt(p, a) { }
  }

  lemma WordsCard(p: Placement, v: Value)
    requires v.Finite?
    ensures |WordsOf(p, v)| <= |v.scalars| + |v.refs|
  {
    var words := set a | a in v.refs :: WordAt(p, a);
    ImageCard(v.refs, a => WordAt(p, a), words);
    UnionCard(v.scalars, words);
  }

  lemma SomeWord(p: Placement, v: Value) returns (w: Word)
    requires Allows(v)
    ensures Denotes(p, v, w)
  {
    w := 0;
    if v.Finite? {
      if v.scalars != {} {
        w :| w in v.scalars;
      } else {
        var a :| a in v.refs;
        w := WordAt(p, a);
        assert AtomDenotes(p, a, w);
      }
    }
  }

  /** The result is the uncollapsed sum, and at most one operand holds references. */
  predicate IsExactSum(result: Value, x: Value, y: Value) {
    && x.Finite? && y.Finite? && (x.refs == {} || y.refs == {})
    && result == Finite(AdjustedScalars(x, y, false), AdjustedRefs(x, y, false)) && Exact(result)
  }

  lemma ExactSum(x: Value, y: Value, limit: nat)
    requires Exact(AdjustedReference(x, y, false, limit))
    ensures IsExactSum(AdjustedReference(x, y, false, limit), x, y)
    ensures (var r := AdjustedReference(x, y, false, limit); |r.scalars| + |r.refs| <= limit && Allows(r))
  {
    FiniteSum(x, y, limit);
    OneSided(x, y);
    ExactCanonical(AdjustedScalars(x, y, false), AdjustedRefs(x, y, false), limit);
  }

  lemma FiniteSum(x: Value, y: Value, limit: nat)
    requires AdjustedReference(x, y, false, limit).Finite?
    ensures x.Finite? && y.Finite? && !AdjustmentConflicts(x, y, false)
    ensures AdjustedReference(x, y, false, limit) == Canonical(AdjustedScalars(x, y, false), AdjustedRefs(x, y, false), limit)
  {
  }

  lemma OneSided(x: Value, y: Value)
    requires x.Finite? && y.Finite? && !AdjustmentConflicts(x, y, false)
    ensures x.refs == {} || y.refs == {}
  {
    if x.refs != {} && y.refs != {} {
      var a :| a in x.refs;
      var b :| b in y.refs;
    }
  }

  lemma ExactCanonical(scalars: set<Word>, refs: set<Atom>, limit: nat)
    requires Exact(Canonical(scalars, refs, limit))
    ensures Canonical(scalars, refs, limit) == Finite(scalars, refs) && |scalars| + |refs| <= limit
    ensures scalars != {} || refs != {}
  {
    CollapseViews(refs);
    if !HasObject(refs) { CollapseFixed(refs); }
  }

  /** The result allows nothing that is no sum of the two operands. */
  lemma OnlySums(p: Placement, x: Value, y: Value, result: Value, w: Word) returns (wx: Word, wy: Word)
    requires IsExactSum(result, x, y) && w in WordsOf(p, result)
    ensures Denotes(p, x, wx) && Denotes(p, y, wy) && w == Wrap(wx + wy)
  {
    if w in result.scalars {
      wx, wy := ScalarParts(x, y, w);
    } else {
      wx, wy := ReferenceParts(p, x, y, result, w);
    }
  }

  lemma ReferenceParts(p: Placement, x: Value, y: Value, result: Value, w: Word) returns (wx: Word, wy: Word)
    requires x.Finite? && y.Finite? && Exact(result) && result.refs == AdjustedRefs(x, y, false)
    requires w in WordsOf(p, result) && w !in result.scalars
    ensures Denotes(p, x, wx) && Denotes(p, y, wy) && w == Wrap(wx + wy)
  {
    var b := AtomOf(p, result, w);
    wx, wy := AtomParts(p, x, y, b);
  }

  lemma AtomOf(p: Placement, v: Value, w: Word) returns (b: Atom)
    requires Exact(v) && w in WordsOf(p, v) && w !in v.scalars
    ensures b in v.refs && !b.View? && w == WordAt(p, b)
  {
    b :| b in v.refs && w == WordAt(p, b);
  }

  lemma AtomParts(p: Placement, x: Value, y: Value, b: Atom) returns (wx: Word, wy: Word)
    requires x.Finite? && y.Finite? && b in AdjustedRefs(x, y, false) && !b.View?
    ensures Denotes(p, x, wx) && Denotes(p, y, wy) && WordAt(p, b) == Wrap(wx + wy)
  {
    if b in MovedRefs(x.refs, y.scalars, false) {
      wx, wy := MovedParts(p, x.refs, y.scalars, b);
    } else {
      wy, wx := MovedParts(p, y.refs, x.scalars, b);
    }
  }

  lemma ScalarParts(x: Value, y: Value, w: Word) returns (wx: Word, wy: Word)
    requires x.Finite? && y.Finite? && (x.refs == {} || y.refs == {}) && w in AdjustedScalars(x, y, false)
    ensures wx in x.scalars && wy in y.scalars && w == Wrap(wx + wy)
  {
    wx, wy :| wx in x.scalars && wy in y.scalars && w == Wrap(wx + wy);
  }

  lemma MovedParts(p: Placement, refs: set<Atom>, deltas: set<Word>, b: Atom) returns (w: Word, d: Word)
    requires b in MovedRefs(refs, deltas, false) && !b.View?
    ensures Denotes(p, Finite({}, refs), w) && d in deltas && WordAt(p, b) == Wrap(w + d)
  {
    var a: Atom;
    a, d :| a in refs && d in deltas && b == Shifted(a, SignedDelta(d, false));
    w := WordAt(p, a);
    assert AtomDenotes(p, a, w);
    ShiftedWord(p, a, d);
  }

  lemma ShiftedWord(p: Placement, a: Atom, d: Word)
    requires !a.View?
    ensures WordAt(p, Shifted(a, SignedDelta(d, false))) == Wrap(WordAt(p, a) + d)
  {
    ShiftedDenotes(p, a, WordAt(p, a), d, false);
  }

  // ----- soundness as stability of the words of the result

  /** Adding any choice of the ignored operands leads from words of the result to words of the result. */
  ghost predicate Stable(p: Placement, result: Value, rests: seq<Value>)
    requires result.Finite?
  {
    forall row | ChosenRow(p, rests, row) :: Closed(WordsOf(p, result), SumOf(row))
  }

  ghost predicate IsPairSum(p: Placement, x: Value, y: Value, w: Word) {
    exists wx: Word, wy: Word {:trigger Denotes(p, x, wx), Denotes(p, y, wy)} ::
      Denotes(p, x, wx) && Denotes(p, y, wy) && w == Wrap(wx + wy)
  }

  /** The result allows nothing but sums of the two operands. */
  ghost predicate PairsOnly(p: Placement, x: Value, y: Value, result: Value)
    requires result.Finite?
  {
    forall w | w in WordsOf(p, result) :: IsPairSum(p, x, y, w)
  }

  lemma ExactPairsOnly(p: Placement, x: Value, y: Value, result: Value)
    requires IsExactSum(result, x, y)
    ensures PairsOnly(p, x, y, result)
  {
    forall w | w in WordsOf(p, result) ensures IsPairSum(p, x, y, w) { var wx, wy := OnlySums(p, x, y, result, w); }
  }

  lemma StableWhenSound(p: Placement, x: Value, y: Value, rests: seq<Value>, result: Value)
    requires Exact(result) && PairsOnly(p, x, y, result) && SumsSound(p, x, y, rests, result)
    ensures Stable(p, result, rests)
  {
    forall row, w: Word | ChosenRow(p, rests, row) && w in WordsOf(p, result) ensures Lands(WordsOf(p, result), w, SumOf(row)) {
      assert IsPairSum(p, x, y, w);
      var wx: Word, wy: Word :| Denotes(p, x, wx) && Denotes(p, y, wy) && w == Wrap(wx + wy);
      SumStaysInside(p, result, wx, wy, row);
    }
  }

  lemma SumStaysInside(p: Placement, result: Value, wx: Word, wy: Word, row: seq<Word>)
    requires Exact(result)
    ensures SumDenoted(p, result, wx, wy, row) <==> Lands(WordsOf(p, result), Wrap(wx + wy), SumOf(row))
  {
    SumOfRow(wx, wy, row);
    WordsDenoted(p, result, SumOf([wx, wy] + row));
  }

  /** The result allows the sums of the two operands it was made of. */
  ghost predicate PairsDenoted(p: Placement, x: Value, y: Value, result: Value) {
    forall wx: Word, wy: Word | Denotes(p, x, wx) && Denotes(p, y, wy) :: Denotes(p, result, Wrap(wx + wy))
  }

  lemma SoundWhenStable(p: Placement, x: Value, y: Value, rests: seq<Value>, result: Value)
    requires Exact(result) && PairsDenoted(p, x, y, result) && Stable(p, result, rests)
    ensures SumsSound(p, x, y, rests, result)
  {
    forall wx: Word, wy: Word, row | Denotes(p, x, wx) && Denotes(p, y, wy) && ChosenRow(p, rests, row)
      ensures SumDenoted(p, result, wx, wy, row)
    {
      WordsDenoted(p, result, Wrap(wx + wy));
      assert Closed(WordsOf(p, result), SumOf(row));
      SumStaysInside(p, result, wx, wy, row);
    }
  }

  // ----- a set of words that a small step leaves stable is large

  function Steps(d: Word, g: Word, n: nat): set<Word>
    decreases n
  {
    if n == 0 then {} else {d} + Steps(Wrap(d + g), g, n - 1)
  }

  lemma {:induction false} StepReach(d: Word, g: Word, n: nat, w: Word) returns (k: nat)
    requires 0 < g <= 2 && w in Steps(d, g, n)
    ensures k <= 2 * n && w == Wrap(d + k)
    decreases n
  {
    if w == d {
      k := 0;
      WrapOfWord(d);
    } else {
      var rest := StepReach(Wrap(d + g), g, n - 1, w);
      k := rest + g;
      WrapAdd(d + g, rest);
    }
  }

  lemma {:induction false} StepsCard(d: Word, g: Word, n: nat)
    requires 0 < g <= 2 && n <= 300
    ensures |Steps(d, g, n)| == n
    decreases n
  {
    if n > 0 {
      StepsCard(Wrap(d + g), g, n - 1);
      StepsLeave(d, g, n - 1);
    }
  }

  lemma StepsLeave(d: Word, g: Word, n: nat)
    requires 0 < g <= 2 && n <= 300
    ensures d !in Steps(Wrap(d + g), g, n)
  {
    if d in Steps(Wrap(d + g), g, n) {
      var k := StepReach(Wrap(d + g), g, n, d);
      WrapAdd(d + g, k);
      SumUnchanged(d, g + k);
    }
  }

  lemma {:induction false} StepsInside(words: set<Word>, d: Word, g: Word, n: nat)
    requires d in words && Closed(words, g)
    ensures Steps(d, g, n) <= words
    decreases n
  {
    if n > 0 {
      assert Lands(words, d, g);
      StepsInside(words, Wrap(d + g), g, n - 1);
    }
  }

  lemma StableIsLarge(words: set<Word>, d: Word, g: Word)
    requires 0 < g <= 2 && d in words && Closed(words, g)
    ensures |words| > STACK_ALTERNATIVE_LIMIT
  {
    var n := STACK_ALTERNATIVE_LIMIT + 1;
    StepsInside(words, d, g, n);
    StepsCard(d, g, n);
    SubsetCard(Steps(d, g, n), words);
  }

  /** A small set misses a word. */
  lemma MissedWord(words: set<Word>) returns (t: Word)
    requires |words| <= STACK_ALTERNATIVE_LIMIT
    ensures t !in words
  {
    if forall w: Word :: w in words { StableIsLarge(words, 0, 1); }
    t :| t !in words;
  }

  // ----- an ignored operand that is no scalar

  /** One alternative: a scalar or an exact reference. */
  datatype Pick = Known(w: Word) | Named(a: Atom)

  predicate Picked(v: Value, pick: Pick) {
    v.Finite? && match pick case Known(w) => w in v.scalars case Named(a) => a in v.refs && !a.View? && !a.id.Aligned?
  }

  predicate AllPicked(rests: seq<Value>, picks: seq<Pick>) {
    |picks| == |rests| && forall k | 0 <= k < |picks| :: Picked(rests[k], picks[k])
  }

  /** One object at t, everything else at 0. */
  function OnlyAt(id: Identity, t: Word): Placement { Placement(other => if other == id then t else 0) }

  function PickWord(p: Placement, pick: Pick): Word { match pick case Known(w) => w case Named(a) => WordAt(p, a) }

  function PickRow(p: Placement, picks: seq<Pick>): (row: seq<Word>)
    ensures |row| == |picks|
  {
    seq(|picks|, k requires 0 <= k < |picks| => PickWord(p, picks[k]))
  }

  lemma PickedRow(p: Placement, rests: seq<Value>, picks: seq<Pick>)
    requires AllPicked(rests, picks)
    ensures ChosenRow(p, rests, PickRow(p, picks))
  {
    forall k | 0 <= k < |picks| ensures Denotes(p, rests[k], PickRow(p, picks)[k]) {
      assert Picked(rests[k], picks[k]);
      if picks[k].Named? { assert AtomDenotes(p, picks[k].a, WordAt(p, picks[k].a)); }
    }
  }

  function Hit(pick: Pick, id: Identity): (h: nat)
    ensures h <= 1
  {
    if pick.Named? && pick.a.id == id then 1 else 0
  }

  function Fixed(pick: Pick): int { match pick case Known(w) => w as int case Named(a) => OffsetOf(a) }

  /** How often an object is picked. */
  function Slope(picks: seq<Pick>, id: Identity): (m: nat)
    ensures m <= |picks|
  {
    if picks == [] then 0 else Slope(picks[..|picks| - 1], id) + Hit(picks[|picks| - 1], id)
  }

  /** What the picks add up to when every object is at 0. */
  function Constant(picks: seq<Pick>): int {
    if picks == [] then 0 else Constant(picks[..|picks| - 1]) + Fixed(picks[|picks| - 1])
  }

  lemma {:induction false} SlopeUp(picks: seq<Pick>, k: nat)
    requires k < |picks| && picks[k].Named?
    ensures Slope(picks, picks[k].a.id) >= 1
  {
    if k < |picks| - 1 { SlopeUp(picks[..|picks| - 1], k); }
  }

  predicate Placeable(pick: Pick) { pick.Named? ==> !pick.a.id.Aligned? }

  /** What the picks add up to when one object is at t and every other at 0. */
  function Total(picks: seq<Pick>, id: Identity, t: Word): int {
    if picks == [] then 0 else Total(picks[..|picks| - 1], id, t) + PickTotal(picks[|picks| - 1], id, t)
  }

  function PickTotal(pick: Pick, id: Identity, t: Word): int { Fixed(pick) + if Hit(pick, id) == 1 then t as int else 0 }

  lemma OnePick(pick: Pick, id: Identity, t: Word)
    requires Placeable(pick)
    ensures PickWord(OnlyAt(id, t), pick) == Wrap(PickTotal(pick, id, t))
  {
    if pick.Known? { WrapOfWord(pick.w); }
  }

  lemma {:induction false} PickSum(picks: seq<Pick>, id: Identity, t: Word)
    requires forall k | 0 <= k < |picks| :: Placeable(picks[k])
    ensures SumOf(PickRow(OnlyAt(id, t), picks)) == Wrap(Total(picks, id, t))
  {
    if picks != [] {
      var rest, last, p := picks[..|picks| - 1], picks[|picks| - 1], OnlyAt(id, t);
      PickSum(rest, id, t);
      assert PickRow(p, picks) == PickRow(p, rest) + [PickWord(p, last)];
      SumSnoc(PickRow(p, rest), PickWord(p, last));
      OnePick(last, id, t);
      WrappedSum(Total(rest, id, t), PickTotal(last, id, t));
    }
  }

  lemma WrappedSum(x: int, y: int)
    ensures Wrap(Wrap(x) + Wrap(y)) == Wrap(x + y)
  {
    WrapAdd(x, Wrap(y));
    WrapAdd(x, y);
  }

  lemma {:induction false} TotalIs(picks: seq<Pick>, id: Identity, t: Word)
    ensures Total(picks, id, t) == Slope(picks, id) * t + Constant(picks)
  {
    if picks != [] {
      TotalIs(picks[..|picks| - 1], id, t);
      OneMore(Slope(picks[..|picks| - 1], id), Hit(picks[|picks| - 1], id), t);
    }
  }

  lemma OneMore(m: nat, hit: nat, t: int)
    requires hit <= 1
    ensures (m + hit) * t == m * t + if hit == 1 then t else 0
  {
  }

  /** Where to put an object that is picked once or twice, so that the picks add up to 1 or 2. */
  lemma SmallStep(m: nat, c: int) returns (t: Word, g: Word)
    requires 1 <= m <= 2
    ensures 0 < g <= 2 && g == Wrap(m * t + c)
  {
    g := if m == 2 && c % 2 == 0 then 2 else 1;
    var h: int := (g - c) / m;
    assert m * h + c == g;
    t := Wrap(h);
    WrapCongruent(m * h + c, m * t + c, m * (h / WORD_SIZE));
    WrapOfWord(g);
  }

  /** Small enough to be a value the kernel stores. */
  predicate Small(v: Value) { v.Finite? && |v.scalars| + |v.refs| <= STACK_ALTERNATIVE_LIMIT }

  lemma StepUnstable(p: Placement, result: Value, rests: seq<Value>, row: seq<Word>)
    requires Exact(result) && Small(result) && Allows(result) && ChosenRow(p, rests, row) && 0 < SumOf(row) <= 2
    ensures !Stable(p, result, rests)
  {
    var words := WordsOf(p, result);
    var d := SomeWord(p, result);
    WordsDenoted(p, result, d);
    WordsCard(p, result);
    if Stable(p, result, rests) {
      assert Closed(words, SumOf(row));
      StableIsLarge(words, d, SumOf(row));
    }
  }

  /** An ignored exact reference: some placement makes the ignored operands add up to 1 or 2. */
  lemma ReferenceUnstable(result: Value, rests: seq<Value>, picks: seq<Pick>, k: nat) returns (p: Placement)
    requires Exact(result) && Small(result) && Allows(result)
    requires AllPicked(rests, picks) && |picks| <= 2 && k < |picks| && picks[k].Named?
    ensures !Stable(p, result, rests)
  {
    var id := picks[k].a.id;
    SlopeUp(picks, k);
    var t, g := SmallStep(Slope(picks, id), Constant(picks));
    p := OnlyAt(id, t);
    forall j | 0 <= j < |picks| ensures Placeable(picks[j]) { assert Picked(rests[j], picks[j]); }
    PickSum(picks, id, t);
    TotalIs(picks, id, t);
    PickedRow(p, rests, picks);
    StepUnstable(p, result, rests, PickRow(p, picks));
  }

  lemma {:induction false} SumUpdate(row: seq<Word>, k: nat, u: Word)
    requires k < |row|
    ensures SumOf(row[k := u]) == Wrap(SumOf(row) as int - row[k] as int + u as int)
  {
    var n := |row| - 1;
    assert row == row[..n] + [row[n]];
    if k == n {
      assert row[k := u] == row[..n] + [u];
      UpdateLast(row[..n], row[n], u);
    } else {
      assert row[k := u] == row[..n][k := u] + [row[n]];
      SumUpdate(row[..n], k, u);
      UpdateInner(row[..n], k, u, row[n]);
    }
  }

  lemma UpdateLast(rest: seq<Word>, last: Word, u: Word)
    ensures SumOf(rest + [u]) == Wrap(SumOf(rest + [last]) as int - last as int + u as int)
  {
    SumSnoc(rest, u);
    SumSnoc(rest, last);
    MovedSum(SumOf(rest), last, u, SumOf(rest + [last]));
  }

  lemma UpdateInner(rest: seq<Word>, k: nat, u: Word, last: Word)
    requires k < |rest| && SumOf(rest[k := u]) == Wrap(SumOf(rest) as int - rest[k] as int + u as int)
    ensures SumOf(rest[k := u] + [last]) == Wrap(SumOf(rest + [last]) as int - rest[k] as int + u as int)
  {
    SumSnoc(rest[k := u], last);
    SumSnoc(rest, last);
    UpdatedSum(SumOf(rest), rest[k], u, last, SumOf(rest[k := u]), SumOf(rest + [last]));
  }

  lemma MovedSum(rest: int, last: int, u: int, sum: int)
    requires sum == Wrap(rest + last)
    ensures Wrap(rest + u) == Wrap(sum - last + u)
  {
    WrapAdd(rest + last, u - last);
  }

  lemma UpdatedSum(rest: int, was: int, u: int, last: int, updated: int, sum: int)
    requires updated == Wrap(rest - was + u) && sum == Wrap(rest + last)
    ensures Wrap(updated + last) == Wrap(sum - was + u)
  {
    WrapAdd(rest - was + u, last);
    WrapAdd(rest + last, u - was);
  }

  /** An ignored operand that rules nothing out can make the ignored operands add up to 1. */
  lemma UnknownUnstable(p: Placement, result: Value, rests: seq<Value>, row: seq<Word>, k: nat)
    requires Exact(result) && Small(result) && Allows(result)
    requires ChosenRow(p, rests, row) && k < |rests| && AllowsAll(rests[k])
    ensures !Stable(p, result, rests)
  {
    var u := WordUpTo(SumOf(row), row[k]);
    SumUpdate(row, k, u);
    EveryWord(p, rests[k], u);
    StepUnstable(p, result, rests, row[k := u]);
  }

  /** What to put in place of one summand so that the sum is 1. */
  lemma WordUpTo(sum: int, was: int) returns (u: Word)
    ensures Wrap(sum - was + u) == 1
  {
    u := Wrap(1 - sum + was);
    WrapAdd(sum - was, 1 - sum + was);
  }

  lemma EveryWord(p: Placement, v: Value, w: Word)
    requires AllowsAll(v)
    ensures Denotes(p, v, w)
  {
    if v.Finite? {
      var a :| a in v.refs && a.View?;
      assert AtomDenotes(p, a, w);
    }
  }

  lemma {:induction false} SomeRow(p: Placement, rests: seq<Value>) returns (row: seq<Word>)
    requires forall k | 0 <= k < |rests| :: Allows(rests[k])
    ensures ChosenRow(p, rests, row)
  {
    if rests == [] {
      row := [];
    } else {
      var front := SomeRow(p, rests[..|rests| - 1]);
      var w := SomeWord(p, rests[|rests| - 1]);
      row := front + [w];
    }
  }

  /** A choice that takes references where it can. */
  lemma {:induction false} SomePicks(rests: seq<Value>) returns (picks: seq<Pick>)
    requires forall k | 0 <= k < |rests| :: Allows(rests[k]) && !AllowsAll(rests[k]) && Unaligned(rests[k])
    ensures AllPicked(rests, picks)
    ensures forall k | 0 <= k < |picks| && !ScalarsOnly(rests[k]) :: picks[k].Named?
  {
    if rests == [] {
      picks := [];
    } else {
      var v := rests[|rests| - 1];
      var front := SomePicks(rests[..|rests| - 1]);
      if v.refs != {} {
        var a :| a in v.refs;
        picks := front + [Named(a)];
      } else {
        var w :| w in v.scalars;
        picks := front + [Known(w)];
      }
    }
  }

  // ----- ignored scalars

  lemma Solved(t: Word, offset: int, x: int)
    requires Wrap(t + offset) == Wrap(x)
    ensures t == Wrap(x - offset)
  {
    WrapSub(t + offset, offset);
    WrapSub(x, offset);
    WrapOfWord(t);
  }

  /** Some placement keeps every object away from the sum, so that only a scalar can be it. */
  lemma ScalarAbsorbed(result: Value, rests: seq<Value>, row: seq<Word>, c: Word)
    requires Exact(result) && Small(result) && Unaligned(result) && c in result.scalars
    requires forall p: Placement :: Stable(p, result, rests) && ChosenRow(p, rests, row)
    ensures Lands(result.scalars, c, SumOf(row))
  {
    var x: int := c + SumOf(row);
    var t := AvoidedWord(result, x);
    var p := Placement(id => t);
    assert Stable(p, result, rests) && ChosenRow(p, rests, row);
    assert Lands(WordsOf(p, result), c, SumOf(row));
    if Wrap(x) !in result.scalars { var b := AtomOf(p, result, Wrap(x)); }
  }

  /** With every object at t no reference is x. */
  lemma AvoidedWord(v: Value, x: int) returns (t: Word)
    requires Small(v)
    ensures forall b | b in v.refs :: Wrap(t + OffsetOf(b)) != Wrap(x)
  {
    var taken := set b | b in v.refs :: Wrap(x - OffsetOf(b));
    ImageCard(v.refs, b => Wrap(x - OffsetOf(b)), taken);
    t := MissedWord(taken);
    forall b | b in v.refs ensures Wrap(t + OffsetOf(b)) != Wrap(x) {
      Misses(t, OffsetOf(b), x, taken);
    }
  }

  /** Some placement keeps everything else away from an object, so that only the object itself can be the sum. */
  lemma ReferenceAbsorbed(result: Value, rests: seq<Value>, row: seq<Word>, a: Atom)
    requires Exact(result) && Small(result) && Unaligned(result) && a in result.refs
    requires forall p: Placement :: Stable(p, result, rests) && ChosenRow(p, rests, row)
    ensures MovesInside(result.refs, a, SumOf(row))
  {
    var x: int := OffsetOf(a) + SumOf(row);
    var t := FreeWord(result, x);
    var p := OnlyAt(a.id, t);
    assert Stable(p, result, rests) && ChosenRow(p, rests, row);
    var w := WordAt(p, a);
    AtomInside(p, result, a);
    assert Lands(WordsOf(p, result), w, SumOf(row));
    WrapAdd(t + OffsetOf(a), SumOf(row));
    assert Wrap(w + SumOf(row)) == Wrap(t + x);
    var b := AtomOf(p, result, Wrap(t + x));
    assert b.id == a.id;
    Cancelled(t, OffsetOf(b), x);
  }

  /** With an object at t, its offset x is neither a scalar nor an offset of an object at 0. */
  lemma FreeWord(v: Value, x: int) returns (t: Word)
    requires Small(v)
    ensures Wrap(t + x) !in v.scalars
    ensures forall b | b in v.refs :: Wrap(t + x) != Wrap(OffsetOf(b))
  {
    var scalars := set c | c in v.scalars :: Wrap(c - x);
    var offsets := set b | b in v.refs :: Wrap(OffsetOf(b) - x);
    ImageCard(v.scalars, c => Wrap(c - x), scalars);
    ImageCard(v.refs, b => Wrap(OffsetOf(b) - x), offsets);
    UnionCard(scalars, offsets);
    t := MissedWord(scalars + offsets);
    forall c | c in v.scalars ensures Wrap(t + x) != c {
      Misses(t, x, c, scalars);
      WrapOfWord(c);
    }
    forall b | b in v.refs ensures Wrap(t + x) != Wrap(OffsetOf(b)) { Misses(t, x, OffsetOf(b), offsets); }
  }

  lemma Misses(t: Word, x: int, y: int, taken: set<Word>)
    requires Wrap(y - x) in taken && t !in taken
    ensures Wrap(t + x) != Wrap(y)
  {
    if Wrap(t + x) == Wrap(y) { Solved(t, x, y); }
  }

  lemma Cancelled(t: int, x: int, y: int)
    requires Wrap(t + x) == Wrap(t + y)
    ensures Wrap(x) == Wrap(y)
  {
    WrapSub(t + x, t);
    WrapSub(t + y, t);
  }

  lemma AbsorbedStable(p: Placement, result: Value, rests: seq<Value>)
    requires Exact(result) && IgnoredAbsorbed(rests, result)
    ensures Stable(p, result, rests)
  {
    forall row, w: Word | ChosenRow(p, rests, row) && w in WordsOf(p, result) ensures Lands(WordsOf(p, result), w, SumOf(row)) {
      RowIsScalar(p, rests, row);
      WordAbsorbed(p, result, w, SumOf(row));
    }
  }

  lemma RowIsScalar(p: Placement, rests: seq<Value>, row: seq<Word>)
    requires ChosenRow(p, rests, row) && forall k | 0 <= k < |rests| :: ScalarsOnly(rests[k])
    ensures ScalarRow(rests, row)
  {
  }

  lemma WordAbsorbed(p: Placement, result: Value, w: Word, s: Word)
    requires Exact(result) && AbsorbsWord(result, s) && w in WordsOf(p, result)
    ensures Lands(WordsOf(p, result), w, s)
  {
    if w !in result.scalars {
      var a := AtomOf(p, result, w);
      assert MovesInside(result.refs, a, s);
      var b := MovedAtom(p, result.refs, a, s);
      AtomInside(p, result, b);
    } else {
      assert Lands(result.scalars, w, s);
    }
  }

  lemma AtomInside(p: Placement, v: Value, a: Atom)
    requires v.Finite? && a in v.refs
    ensures WordAt(p, a) in WordsOf(p, v)
  {
  }

  lemma MovedAtom(p: Placement, refs: set<Atom>, a: Atom, s: Word) returns (b: Atom)
    requires MovesInside(refs, a, s)
    ensures b in refs && WordAt(p, b) == Wrap(WordAt(p, a) + s)
  {
    b :| b in refs && b.id == a.id && Wrap(OffsetOf(b)) == Wrap(OffsetOf(a) + s);
    SameWord(Address(p, a.id), OffsetOf(a), OffsetOf(b), s);
  }

  lemma SameWord(address: int, x: int, y: int, s: int)
    requires Wrap(y) == Wrap(x + s)
    ensures Wrap(Wrap(address + x) + s) == Wrap(address + y)
  {
    WrapAdd(address + x, s);
    WrapAdd(address, x + s);
    WrapAdd(address, y);
  }

  // ----- the exact condition

  /** The ignored operands are scalars, and the result absorbs every sum of them. */
  ghost predicate IgnoredAbsorbed(rests: seq<Value>, result: Value) {
    && (forall k | 0 <= k < |rests| :: ScalarsOnly(rests[k]))
    && (forall row | ScalarRow(rests, row) :: AbsorbsWord(result, SumOf(row)))
  }

  predicate SomeNothing(rests: seq<Value>) { exists k | 0 <= k < |rests| :: !Allows(rests[k]) }

  lemma StableAbsorbs(result: Value, rests: seq<Value>)
    requires Exact(result) && Small(result) && Allows(result) && Unaligned(result) && |rests| <= 2
    requires !SomeNothing(rests) && forall k | 0 <= k < |rests| :: Unaligned(rests[k])
    requires forall p: Placement :: Stable(p, result, rests)
    ensures IgnoredAbsorbed(rests, result)
  {
    var origin := Placement(id => 0);
    var row := SomeRow(origin, rests);
    forall k: nat | k < |rests| ensures !AllowsAll(rests[k]) {
      if AllowsAll(rests[k]) { UnknownUnstable(origin, result, rests, row, k); }
    }
    var picks := SomePicks(rests);
    forall k: nat | k < |rests| ensures ScalarsOnly(rests[k]) {
      if !ScalarsOnly(rests[k]) { var p := ReferenceUnstable(result, rests, picks, k); }
    }
    forall row | ScalarRow(rests, row) ensures AbsorbsWord(result, SumOf(row)) {
      assert forall p: Placement :: ChosenRow(p, rests, row);
      forall c | c in result.scalars ensures Lands(result.scalars, c, SumOf(row)) { ScalarAbsorbed(result, rests, row, c); }
      forall a | a in result.refs ensures MovesInside(result.refs, a, SumOf(row)) { ReferenceAbsorbed(result, rests, row, a); }
    }
  }

  lemma UnalignedSum(result: Value, x: Value, y: Value)
    requires IsExactSum(result, x, y) && Unaligned(x) && Unaligned(y)
    ensures Unaligned(result)
  {
  }

  lemma ExactSoundExactly(x: Value, y: Value, rests: seq<Value>, result: Value)
    requires IsExactSum(result, x, y) && forall p: Placement :: PairsDenoted(p, x, y, result)
    requires Small(result) && Allows(result) && |rests| <= 2
    requires Unaligned(x) && Unaligned(y) && forall k | 0 <= k < |rests| :: Unaligned(rests[k])
    requires !SomeNothing(rests)
    ensures SoundEverywhere(x, y, rests, result) <==> IgnoredAbsorbed(rests, result)
  {
    UnalignedSum(result, x, y);
    if SoundEverywhere(x, y, rests, result) {
      forall p: Placement ensures Stable(p, result, rests) {
        ExactPairsOnly(p, x, y, result);
        StableWhenSound(p, x, y, rests, result);
      }
      StableAbsorbs(result, rests);
    }
    if IgnoredAbsorbed(rests, result) {
      forall p: Placement ensures SumsSound(p, x, y, rests, result) {
        AbsorbedStable(p, result, rests);
        SoundWhenStable(p, x, y, rests, result);
      }
    }
  }

  lemma SumAllows(x: Value, y: Value, limit: nat)
    requires Allows(x) && Allows(y)
    ensures !AdjustedReference(x, y, false, limit).Bottom?
  {
    var p := Placement(id => 0);
    var wx := SomeWord(p, x);
    var wy := SomeWord(p, y);
    AdjustedDenotes(p, x, y, false, limit, wx, wy, Wrap(wx as int + wy as int));
  }

  /** For operands of every kind: the two-operand result is sound for the whole sum, wherever objects are placed, exactly
      when some operand allows nothing, or the result rules nothing out, or the ignored operands are scalars whose sums
      the result absorbs.  An ignored operand that may hold a reference is never sound beside an exact result. */
  lemma AdditionOperandsSoundExactly(x: Value, y: Value, rests: seq<Value>, limit: nat)
    requires limit <= STACK_ALTERNATIVE_LIMIT && |rests| <= 2
    requires Unaligned(x) && Unaligned(y) && forall k | 0 <= k < |rests| :: Unaligned(rests[k])
    ensures SoundEverywhere(x, y, rests, AdjustedReference(x, y, false, limit))
        <==> !Allows(x) || !Allows(y) || SomeNothing(rests) || AllowsAll(AdjustedReference(x, y, false, limit))
             || IgnoredAbsorbed(rests, AdjustedReference(x, y, false, limit))
  {
    var result := AdjustedReference(x, y, false, limit);
    if !Allows(x) || !Allows(y) || SomeNothing(rests) {
      NothingSound(x, y, rests, result);
    } else if AllowsAll(result) {
      forall p: Placement, wx, wy, row ensures SumDenoted(p, result, wx, wy, row) { EveryWord(p, result, SumOf([wx, wy] + row)); }
    } else {
      SumAllows(x, y, limit);
      ExactSum(x, y, limit);
      forall p: Placement ensures PairsDenoted(p, x, y, result) { SumPairs(p, x, y, limit); }
      ExactSoundExactly(x, y, rests, result);
    }
  }

  lemma NothingSound(x: Value, y: Value, rests: seq<Value>, result: Value)
    requires !Allows(x) || !Allows(y) || SomeNothing(rests)
    ensures SoundEverywhere(x, y, rests, result)
  {
    forall p: Placement ensures SumsSound(p, x, y, rests, result) {
      if !Allows(x) {
        forall w ensures !Denotes(p, x, w) { }
      } else if !Allows(y) {
        forall w ensures !Denotes(p, y, w) { }
      } else {
        var k :| 0 <= k < |rests| && !Allows(rests[k]);
        forall row ensures !ChosenRow(p, rests, row) { }
      }
    }
  }

  lemma SumPairs(p: Placement, x: Value, y: Value, limit: nat)
    ensures PairsDenoted(p, x, y, AdjustedReference(x, y, false, limit))
  {
    forall wx: Word, wy: Word | Denotes(p, x, wx) && Denotes(p, y, wy)
      ensures Denotes(p, AdjustedReference(x, y, false, limit), Wrap(wx + wy))
    {
      AdjustedDenotes(p, x, y, false, limit, wx, wy, Wrap(wx + wy));
    }
  }

  /** 0 + 0 + the address of an object is not 0. */
  lemma IgnoredReference(limit: nat)
    requires 0 < limit <= STACK_ALTERNATIVE_LIMIT
    ensures var zero, table := Finite({0}, {}), Finite({}, {Object(Plain("table"), 0)});
            !SoundEverywhere(zero, zero, [table], AdjustedReference(zero, zero, false, limit))
  {
    var zero, table := Finite({0}, {}), Finite({}, {Object(Plain("table"), 0)});
    AddOfScalars(0, 0, limit);
    assert !ScalarsOnly([table][0]);
    AdditionOperandsSoundExactly(zero, zero, [table], limit);
  }
}
