/** What abstract evaluation does not invent: on known scalars every value is exactly the set of possible results. */
module Precision {
  import opened Words
  import opened Identities
  import opened Values
  import opened Sets
  import opened Expressions
  import opened Operations

  // ----- sums and joins of scalars

  predicate Scalars(v: Value) { v.Finite? && v.refs == {} && v.scalars != {} }

  ghost predicate IsSum(x: Value, y: Value, subtract: bool, w: Word)
    requires x.Finite? && y.Finite?
  {
    exists a: Word, b: Word :: a in x.scalars && b in y.scalars && w == if subtract then Wrap(a - b) else Wrap(a + b)
  }

  /** Sums and differences of known scalars, unless there are more of them than the limit allows. */
  lemma SumsExactly(x: Value, y: Value, subtract: bool, limit: nat)
    requires Scalars(x) && Scalars(y)
    ensures var r := AdjustedReference(x, y, subtract, limit);
            && (r.Finite? || r == Conflict)
            && (r.Finite? ==> r.refs == {} && |r.scalars| <= limit && forall w :: w in r.scalars <==> IsSum(x, y, subtract, w))
            && (r == Conflict ==> |x.scalars| * |y.scalars| > limit)
  {
    var sums := AdjustedScalars(x, y, subtract);
    SumShape(x, y, subtract, limit);
    forall w ensures w in sums <==> IsSum(x, y, subtract, w) { SumListed(x, y, subtract, w); }
    SumCount(x, y, subtract);
    if |sums| <= limit { ScalarsFit(sums, limit); } else { ScalarsOverflow(sums, limit); }
  }

  lemma SumShape(x: Value, y: Value, subtract: bool, limit: nat)
    requires Scalars(x) && Scalars(y)
    ensures AdjustedReference(x, y, subtract, limit) == Canonical(AdjustedScalars(x, y, subtract), {}, limit)
    ensures AdjustedScalars(x, y, subtract) != {}
  {
    OneSidedAdjusts(x, y, subtract, limit);
    assert AdjustedRefs(x, y, subtract) == {};
    var a, b :| a in x.scalars && b in y.scalars;
    SumAlternative(x, y, subtract, a, b, if subtract then Wrap(a - b) else Wrap(a + b));
  }

  lemma SumListed(x: Value, y: Value, subtract: bool, w: Word)
    requires Scalars(x) && Scalars(y)
    ensures w in AdjustedScalars(x, y, subtract) <==> IsSum(x, y, subtract, w)
  {
    if IsSum(x, y, subtract, w) {
      var a: Word, b: Word :| a in x.scalars && b in y.scalars && w == if subtract then Wrap(a - b) else Wrap(a + b);
      SumAlternative(x, y, subtract, a, b, w);
    }
    if w in AdjustedScalars(x, y, subtract) {
      var a, b :| a in x.scalars && b in y.scalars && w == if subtract then Wrap(a - b) else Wrap(a + b);
    }
  }

  /** The two-word rows the sums are taken from. */
  function Pairs(x: set<Word>, y: set<Word>): set<seq<Word>> { Extended(Extended({[]}, x), y) }

  function SumOfRow(row: seq<Word>, subtract: bool): Word {
    if |row| != 2 then 0 else if subtract then Wrap(row[0] as int - row[1] as int) else Wrap(row[0] as int + row[1] as int)
  }

  lemma PairListed(x: set<Word>, y: set<Word>, a: Word, b: Word)
    requires a in x && b in y
    ensures [a, b] in Pairs(x, y)
  {
    ExtendedHolds({[]}, x, [], a);
    ExtendedHolds(Extended({[]}, x), y, [] + [a], b);
    assert [] + [a] + [b] == [a, b];
  }

  lemma PairsCard(x: set<Word>, y: set<Word>)
    ensures |Pairs(x, y)| == |x| * |y|
  {
    var one: set<seq<Word>> := {[]};
    ExtendedCard(one, x);
    ExtendedCard(Extended(one, x), y);
    assert |one| == 1;
    assert |Extended(one, x)| == |x|;
  }

  lemma SumFromRow(x: Value, y: Value, subtract: bool, w: Word) returns (row: seq<Word>)
    requires Scalars(x) && Scalars(y) && w in AdjustedScalars(x, y, subtract)
    ensures row in Pairs(x.scalars, y.scalars) && w == SumOfRow(row, subtract)
  {
    SumListed(x, y, subtract, w);
    var a: Word, b: Word :| a in x.scalars && b in y.scalars && w == if subtract then Wrap(a - b) else Wrap(a + b);
    PairListed(x.scalars, y.scalars, a, b);
    row := [a, b];
  }

  lemma SumCount(x: Value, y: Value, subtract: bool)
    requires Scalars(x) && Scalars(y)
    ensures |AdjustedScalars(x, y, subtract)| <= |x.scalars| * |y.scalars|
  {
    PairsCard(x.scalars, y.scalars);
    var rows, sums, sum := Pairs(x.scalars, y.scalars), AdjustedScalars(x, y, subtract), row => SumOfRow(row, subtract);
    forall w | w in sums ensures exists row :: row in rows && w == sum(row) {
      var row := SumFromRow(x, y, subtract, w);
    }
    ImageCard(rows, sum, sums);
  }

  lemma ScalarsOverflow(scalars: set<Word>, limit: nat)
    requires |scalars| > limit
    ensures Canonical(scalars, {}, limit) == Conflict
  {
    var none: set<Atom> := {};
    assert !HasView(none) && Collapse(none) == {} && |none| == 0;
    assert scalars != {};
  }

  /** Two sets of known scalars join to their union while it fits. */
  lemma UnionExactly(x: Value, y: Value, limit: nat)
    requires Scalars(x) && Scalars(y)
    ensures Join(x, y, limit) == if |x.scalars + y.scalars| <= limit then Finite(x.scalars + y.scalars, {}) else Conflict
  {
    var union := x.scalars + y.scalars;
    assert x.refs + y.refs == {};
    assert union != {} by { var a :| a in x.scalars; assert a in union; }
    if |union| <= limit { ScalarsFit(union, limit); } else { ScalarsOverflow(union, limit); }
  }

  // ----- one node

  /** A word the operation of a node yields on some choice of its operands' words; a choice node may yield either
      branch. */
  ghost predicate IsOutcome(node: Node, m: Machine, i: nat, arguments: seq<Value>, w: Word)
    requires ArityOk(node) && ValidMachine(m) && |arguments| == |node.operands|
  {
    if node.op.Ite? then
      exists row :: IsChoice(arguments, row) && (w == row[1] || w == row[2])
    else
      exists row :: IsChoice(arguments, row) && w == Meaning(node, m, i, row)
  }

  predicate Arithmetic(node: Node) {
    node.op.Sub? || node.op.Ite? || (node.op.Add? && |node.operands| == 2) || (node.op.Product? && !node.op.op.Unmodelled?)
  }

  /** On known scalars a node's value is exactly the set of its possible results, or there are too many of them. */
  lemma OperatorExact(node: Node, env: Environment, m: Machine, i: nat, arguments: seq<Value>)
    requires ArityOk(node) && ValidEnvironment(env) && ValidMachine(m) && |arguments| == |node.operands|
    requires Arithmetic(node) && ScalarValues(arguments)
    ensures var r := Interpret(node, env, i, arguments);
            && (r.Finite? || r == Conflict)
            && (r.Finite? ==> r.refs == {} && r.scalars != {} && forall w :: w in r.scalars <==> IsOutcome(node, m, i, arguments, w))
            && (r == Conflict ==>
                  (if node.op.Ite? then |arguments[1].scalars + arguments[2].scalars| else ChoiceCount(arguments)) > env.limits(i))
  {
    match node.op
    case Add => PairExact(node, env, m, i, arguments);
    case Sub => PairExact(node, env, m, i, arguments);
    case Ite => ChoiceExact(node, env, m, i, arguments);
    case Product(op) => ProductExact(node, env, m, i, arguments);
  }

  lemma PairExact(node: Node, env: Environment, m: Machine, i: nat, arguments: seq<Value>)
    requires ArityOk(node) && ValidEnvironment(env) && ValidMachine(m) && |arguments| == |node.operands| == 2
    requires (node.op.Add? || node.op.Sub?) && ScalarValues(arguments)
    ensures var r := Interpret(node, env, i, arguments);
            && (r.Finite? || r == Conflict)
            && (r.Finite? ==> r.refs == {} && r.scalars != {} && forall w :: w in r.scalars <==> IsOutcome(node, m, i, arguments, w))
            && (r == Conflict ==> ChoiceCount(arguments) > env.limits(i))
  {
    var x, y, subtract := arguments[0], arguments[1], node.op.Sub?;
    assert arguments == [x, y];
    SumsExactly(x, y, subtract, env.limits(i));
    PairCount(x, y);
    forall w ensures IsSum(x, y, subtract, w) <==> IsOutcome(node, m, i, arguments, w) { PairOutcome(node, m, i, x, y, w); }
    var a, b :| a in x.scalars && b in y.scalars;
    assert IsSum(x, y, subtract, if subtract then Wrap(a - b) else Wrap(a + b));
  }

  lemma PairCount(x: Value, y: Value)
    requires Scalars(x) && Scalars(y)
    ensures ScalarValues([x, y]) && ChoiceCount([x, y]) == |x.scalars| * |y.scalars|
  {
    assert [x, y][..1] == [x] && [x][..0] == [];
    assert ScalarValues([x]) && ChoiceCount([x]) == ChoiceCount([]) * |x.scalars|;
  }

  lemma PairOutcome(node: Node, m: Machine, i: nat, x: Value, y: Value, w: Word)
    requires ArityOk(node) && ValidMachine(m) && |node.operands| == 2 && (node.op.Add? || node.op.Sub?)
    requires Scalars(x) && Scalars(y)
    ensures IsSum(x, y, node.op.Sub?, w) <==> IsOutcome(node, m, i, [x, y], w)
  {
    if IsSum(x, y, node.op.Sub?, w) {
      var a: Word, b: Word :| a in x.scalars && b in y.scalars && w == if node.op.Sub? then Wrap(a - b) else Wrap(a + b);
      SumOfPair(a, b);
      assert IsChoice([x, y], [a, b]) && w == Meaning(node, m, i, [a, b]);
    }
    if IsOutcome(node, m, i, [x, y], w) {
      var row :| IsChoice([x, y], row) && w == Meaning(node, m, i, row);
      assert row == [row[0], row[1]];
      SumOfPair(row[0], row[1]);
    }
  }

  lemma ChoiceExact(node: Node, env: Environment, m: Machine, i: nat, arguments: seq<Value>)
    requires ArityOk(node) && ValidEnvironment(env) && ValidMachine(m) && |arguments| == |node.operands|
    requires node.op.Ite? && ScalarValues(arguments)
    ensures var r := Interpret(node, env, i, arguments);
            && (r.Finite? || r == Conflict)
            && (r.Finite? ==> r.refs == {} && r.scalars != {} && forall w :: w in r.scalars <==> IsOutcome(node, m, i, arguments, w))
            && (r == Conflict ==> |arguments[1].scalars + arguments[2].scalars| > env.limits(i))
  {
    var x, y := arguments[1], arguments[2];
    UnionExactly(x, y, env.limits(i));
    var c, a0, b0 :| c in arguments[0].scalars && a0 in x.scalars && b0 in y.scalars;
    assert a0 in x.scalars + y.scalars;
    forall w ensures w in x.scalars + y.scalars <==> IsOutcome(node, m, i, arguments, w) {
      if w in x.scalars { assert IsChoice(arguments, [c, w, b0]); }
      if w in y.scalars { assert IsChoice(arguments, [c, a0, w]); }
    }
  }

  lemma ProductExact(node: Node, env: Environment, m: Machine, i: nat, arguments: seq<Value>)
    requires ArityOk(node) && ValidEnvironment(env) && ValidMachine(m) && |arguments| == |node.operands|
    requires node.op.Product? && !node.op.op.Unmodelled? && ScalarValues(arguments)
    ensures var r := Interpret(node, env, i, arguments);
            && (r.Finite? || r == Conflict)
            && (r.Finite? ==> r.refs == {} && r.scalars != {} && forall w :: w in r.scalars <==> IsOutcome(node, m, i, arguments, w))
            && (r == Conflict ==> ChoiceCount(arguments) > env.limits(i))
  {
    var op := node.op.op;
    NotAligned(arguments, env.limits(i));
    ProductExactly(arguments, op, env.limits(i));
    forall w ensures IsResult(arguments, op, w) <==> IsOutcome(node, m, i, arguments, w) {
      if IsResult(arguments, op, w) {
        var row :| IsChoice(arguments, row) && w == Apply(op, row);
        assert w == Meaning(node, m, i, row);
      }
    }
    var row := FirstChoice(arguments);
    assert IsResult(arguments, op, Apply(op, row));
  }

  lemma NotAligned(arguments: seq<Value>, limit: nat)
    requires ScalarValues(arguments)
    ensures AlignedObjectReference(arguments, limit).None?
  {
  }

  // ----- a whole graph

  /** Everything the value of i is computed from is one known word: no constant that names an object or code, no
      choice, and leaves with the machine's own words. */
  ghost predicate Known(graph: seq<Node>, env: Environment, m: Machine, i: nat)
    requires ValidGraph(graph) && ValidEnvironment(env) && ValidMachine(m) && i < |graph|
    decreases i
  {
    var node := graph[i];
    && !Overridden(graph, env, i) && env.limits(i) > 0
    && (match node.op
        case Const(immediate) => ConstantAtoms(env.catalog, immediate) == []
        case Reg(index, current) =>
          if current then env.current[index] == Finite({m.current[index]}, {}) else env.initial[index] == Finite({m.initial[index]}, {})
        case Opaque => env.opaques(i) == Finite({m.opaques(i)}, {})
        case _ => Arithmetic(node) && !node.op.Ite?)
    && forall j | 0 <= j < |node.operands| :: Known(graph, env, m, node.operands[j])
  }

  /** On known words evaluation is the concrete evaluator. */
  lemma {:induction false} KnownExactly(graph: seq<Node>, env: Environment, m: Machine, i: nat)
    requires ValidGraph(graph) && ValidEnvironment(env) && ValidMachine(m) && i < |graph|
    requires Known(graph, env, m, i)
    ensures Eval(graph, env, i) == Finite({Concrete(graph, m, i)}, {})
    decreases i
  {
    var node, values, words := graph[i], EvalRow(graph, env, i), ConcreteRow(graph, m, i);
    forall j | 0 <= j < |values| ensures values[j] == Finite({words[j]}, {}) { KnownExactly(graph, env, m, node.operands[j]); }
    match node.op
    case Const(immediate) => ScalarsFit({immediate}, env.limits(i));
    case Reg(_, _) =>
    case Opaque =>
    case _ => KnownOperator(node, env, m, i, values, words);
  }

  lemma KnownOperator(node: Node, env: Environment, m: Machine, i: nat, values: seq<Value>, words: seq<Word>)
    requires ArityOk(node) && ValidEnvironment(env) && ValidMachine(m) && |values| == |words| == |node.operands|
    requires Arithmetic(node) && !node.op.Ite? && env.limits(i) > 0
    requires forall j | 0 <= j < |values| :: values[j] == Finite({words[j]}, {})
    ensures Interpret(node, env, i, values) == Finite({Meaning(node, m, i, words)}, {})
  {
    OneChoice(values, words);
    OperatorExact(node, env, m, i, values);
    var r := Interpret(node, env, i, values);
    forall w ensures w in r.scalars <==> w == Meaning(node, m, i, words) { OneOutcome(node, m, i, values, words, w); }
    assert r.scalars == {Meaning(node, m, i, words)};
  }

  lemma OneOutcome(node: Node, m: Machine, i: nat, values: seq<Value>, words: seq<Word>, w: Word)
    requires ArityOk(node) && ValidMachine(m) && |values| == |words| == |node.operands| && !node.op.Ite?
    requires forall j | 0 <= j < |values| :: values[j] == Finite({words[j]}, {})
    ensures IsOutcome(node, m, i, values, w) <==> w == Meaning(node, m, i, words)
  {
    assert IsChoice(values, words);
    forall row | IsChoice(values, row) ensures row == words { }
  }

  lemma {:induction false} OneChoice(values: seq<Value>, words: seq<Word>)
    requires |values| == |words| && forall j | 0 <= j < |values| :: values[j] == Finite({words[j]}, {})
    ensures ScalarValues(values) && ChoiceCount(values) == 1
  {
    if values != [] {
      var n := |values| - 1;
      OneChoice(values[..n], words[..n]);
      assert values[n].scalars == {words[n]};
    }
  }

  // ----- recorded constraints

  /** A node with a recorded constraint allows exactly the recorded words, however little its expression knows. */
  lemma OverriddenExactly(graph: seq<Node>, env: Environment, i: nat)
    requires ValidGraph(graph) && ValidEnvironment(env) && i < |graph| && Overridden(graph, env, i)
    requires 0 < |env.constraints[MaskedSubject(graph, i).value]| <= 256
    ensures Eval(graph, env, i) == Finite(env.constraints[MaskedSubject(graph, i).value], {})
  {
    ScalarsFit(env.constraints[MaskedSubject(graph, i).value], STACK_ALTERNATIVE_LIMIT);
  }

  /** A node tests a register when it is one, or masks one with itself or a constant on either side; it then is that
      register under that mask in every machine. */
  lemma SubjectExactly(graph: seq<Node>, i: nat, m: Machine)
    requires ValidGraph(graph) && ValidMachine(m) && i < |graph|
    ensures MaskedSubject(graph, i).Some? <==> IsCurrentReg(graph[i]) || MasksRegister(graph, i, 0, 1) || MasksRegister(graph, i, 1, 0)
    ensures MaskedSubject(graph, i).Some? ==>
              (var (register, mask) := MaskedSubject(graph, i).value;
               register < REGISTER_COUNT && Concrete(graph, m, i) == And(m.current[register], mask))
  {
    var node := graph[i];
    if MaskedSubject(graph, i).Some? {
      var register := MaskedSubject(graph, i).value.0;
      AndOnes(m.current[register]);
      AndSelf(m.current[register]);
      if !IsCurrentReg(node) {
        var row := ConcreteRow(graph, m, i);
        assert row == [Concrete(graph, m, node.operands[0]), Concrete(graph, m, node.operands[1])];
        ApplyAndPair(row[0], row[1]);
        AndCommutes(row[0], row[1]);
      }
    }
  }

  predicate MasksRegister(graph: seq<Node>, i: nat, j: nat, k: nat)
    requires ValidGraph(graph) && i < |graph| && j < 2 && k < 2
  {
    var node := graph[i];
    && node.op == Product(AndOp) && |node.operands| == 2
    && IsCurrentReg(graph[node.operands[j]])
    && (graph[node.operands[k]].op.Const? || node.operands[j] == node.operands[k])
  }
}
