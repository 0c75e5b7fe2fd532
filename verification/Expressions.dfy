/** The word expressions of a transfer: their concrete meaning modulo 2^32, and the abstract evaluation
    that must contain it. */
module Expressions {
  import opened Words
  import opened Identities
  import opened Values

  const ALL_ONES: Word := 0xFFFF_FFFF

  // ----- expression graphs

  /** `Opaque` stands for every leaf and predicate whose value comes from outside the word arithmetic:
      flags, comparisons, memory loads, call responses. */
  datatype Op =
    | Const(immediate: Word)
    | Reg(index: nat, current: bool)
    | Opaque
    | Add | Sub | Ite
    | Product(op: ProductOp)

  datatype ProductOp = MulOp | XorOp | AndOp | OrOp | NotOp | NegOp | ShlOp | LshrOp | MulLowOp | BoolToBitOp | Unmodelled

  datatype Node = Node(op: Op, operands: seq<nat>)

  predicate ArityOk(node: Node) {
    match node.op
    case Const(_) => node.operands == []
    case Reg(index, _) => node.operands == [] && index < REGISTER_COUNT
    case Opaque => true
    case Add => 2 <= |node.operands| <= 4
    case Sub => |node.operands| == 2
    case Ite => |node.operands| == 3
    case Product(op) =>
      match op
      case MulOp | XorOp | AndOp | OrOp => 2 <= |node.operands| <= 4
      case NotOp | NegOp | BoolToBitOp => |node.operands| == 1
      case ShlOp | LshrOp | MulLowOp => |node.operands| == 2
      case Unmodelled => |node.operands| >= 1
  }

  /** What plan validation guarantees: dense, acyclic, and of the right arity. */
  predicate ValidGraph(graph: seq<Node>) {
    forall i | 0 <= i < |graph| :: ArityOk(graph[i]) && forall j | 0 <= j < |graph[i].operands| :: graph[i].operands[j] < i
  }

  // ----- concrete meaning

  datatype Machine = Machine(initial: seq<Word>, current: seq<Word>, opaques: nat -> Word)

  predicate ValidMachine(m: Machine) { |m.initial| == |m.current| == REGISTER_COUNT }

  function SumOf(row: seq<Word>): Word {
    if row == [] then 0 else Wrap(SumOf(row[..|row| - 1]) + row[|row| - 1])
  }

  /** One scalar operation on a row of operands; n-ary operations fold from their unit. */
  function Apply(op: ProductOp, row: seq<Word>): Word
    requires op.NotOp? || op.NegOp? || op.BoolToBitOp? ==> |row| >= 1
    requires op.ShlOp? || op.LshrOp? || op.MulLowOp? ==> |row| >= 2
    decreases |row|
  {
    match op
    case MulOp => if row == [] then 1 else Mul(Apply(op, row[..|row| - 1]), row[|row| - 1])
    case XorOp => if row == [] then 0 else Xor(Apply(op, row[..|row| - 1]), row[|row| - 1])
    case AndOp => if row == [] then ALL_ONES else And(Apply(op, row[..|row| - 1]), row[|row| - 1])
    case OrOp => if row == [] then 0 else Or(Apply(op, row[..|row| - 1]), row[|row| - 1])
    case NotOp => Not(row[0])
    case NegOp => Neg(row[0])
    case ShlOp => Shl(row[0], row[1])
    case LshrOp => Shr(row[0], row[1])
    case MulLowOp => Mul(row[0], row[1])
    case BoolToBitOp => if row[0] != 0 then 1 else 0
    case Unmodelled => 0
  }

  /** One node on its operands' words.  Opaque nodes and unmodelled operations are the machine's choice. */
  function Meaning(node: Node, m: Machine, i: nat, row: seq<Word>): Word
    requires ArityOk(node) && ValidMachine(m) && |row| == |node.operands|
  {
    match node.op
    case Const(immediate) => immediate
    case Reg(index, current) => if current then m.current[index] else m.initial[index]
    case Opaque => m.opaques(i)
    case Add => SumOf(row)
    case Sub => Wrap(row[0] as int - row[1] as int)
    case Ite => if row[0] != 0 then row[1] else row[2]
    case Product(op) => if op.Unmodelled? then m.opaques(i) else Apply(op, row)
  }

  /** The concrete evaluator. */
  function Concrete(graph: seq<Node>, m: Machine, i: nat): Word
    requires ValidGraph(graph) && ValidMachine(m) && i < |graph|
    decreases i, 1
  {
    Meaning(graph[i], m, i, ConcreteRow(graph, m, i))
  }

  function ConcreteRow(graph: seq<Node>, m: Machine, i: nat): (row: seq<Word>)
    requires ValidGraph(graph) && ValidMachine(m) && i < |graph|
    decreases i, 0
  {
    var operands := graph[i].operands;
    seq(|operands|, j requires 0 <= j < |operands| => Concrete(graph, m, operands[j]))
  }

  // ----- what an abstract value allows

  /** Where objects live.  Aligned identities follow from their base, so only the rest is free. */
  datatype Placement = Placement(base: Identity -> Word)

  function Address(p: Placement, id: Identity): Word {
    match id
    case Aligned(mask, base, offset) => And(Wrap(Address(p, base) + offset), mask)
    case _ => p.base(id)
  }

  predicate AtomDenotes(p: Placement, a: Atom, w: Word) {
    match a
    case View(_) => true
    case Object(id, offset) => w == Wrap(Address(p, id) + offset)
    case Other(_, id, offset) => w == Wrap(Address(p, id) + offset)
  }

  predicate Denotes(p: Placement, v: Value, w: Word) {
    match v
    case Bottom => false
    case Finite(scalars, refs) => w in scalars || exists a | a in refs :: AtomDenotes(p, a, w)
    case UnknownScalar => true
    case Conflict => true
  }

  lemma BelowDenotes(p: Placement, y: Value, x: Value, w: Word)
    requires Below(y, x) && Denotes(p, y, w)
    ensures Denotes(p, x, w)
  {
    if y.Finite? && x.Finite? && w !in x.scalars {
      var a :| a in y.refs && AtomDenotes(p, a, w);
      if HasView(x.refs) {
        assert ViewOf(a) in x.refs && AtomDenotes(p, ViewOf(a), w);
      } else {
        assert a in x.refs;
      }
    }
  }

  /** Canonicalising loses no concrete word, whatever the limit. */
  lemma CanonicalDenotes(p: Placement, scalars: set<Word>, refs: set<Atom>, limit: nat, w: Word)
    requires w in scalars || exists a | a in refs :: AtomDenotes(p, a, w)
    ensures Denotes(p, Canonical(scalars, refs, limit), w)
  {
    if w in scalars {
      CanonicalAbove(scalars, refs, limit, {w}, {});
      BelowDenotes(p, Finite({w}, {}), Canonical(scalars, refs, limit), w);
    } else {
      var a :| a in refs && AtomDenotes(p, a, w);
      CanonicalAbove(scalars, refs, limit, {}, {a});
      assert Denotes(p, Finite({}, {a}), w);
      BelowDenotes(p, Finite({}, {a}), Canonical(scalars, refs, limit), w);
    }
  }

  lemma JoinDenotes(p: Placement, x: Value, y: Value, limit: nat, w: Word)
    requires Denotes(p, x, w) || Denotes(p, y, w)
    ensures Denotes(p, Join(x, y, limit), w)
  {
    if x.Finite? && y.Finite? {
      CanonicalDenotes(p, x.scalars + y.scalars, x.refs + y.refs, limit, w);
    }
  }

  // ----- constants

  datatype CatalogObject = CatalogObject(id: Identity, address: Word, extent: Word)

  datatype CodeCatalog = CodeCatalog(
    objects: seq<CatalogObject>, imageBase: Word, code: set<Word>, externals: map<Word, Identity>)

  function ObjectAtoms(objects: seq<CatalogObject>, value: Word): seq<Atom> {
    if objects == [] then []
    else
      var o := objects[0];
      (if o.address <= value < o.address + o.extent then [Object(o.id, value - o.address)] else [])
        + ObjectAtoms(objects[1..], value)
  }

  function GuestRvaOf(catalog: CodeCatalog, value: Word): Word {
    if catalog.imageBase != 0 && value >= catalog.imageBase then value - catalog.imageBase else value
  }

  function ConstantAtoms(catalog: CodeCatalog, value: Word): seq<Atom> {
    ObjectAtoms(catalog.objects, value)
      + (if GuestRvaOf(catalog, value) in catalog.code
         then [Other(GuestCode, GuestRva(GuestRvaOf(catalog, value)), 0)] else [])
      + (if value in catalog.externals then [Other(ExternalFunction, catalog.externals[value], 0)] else [])
  }

  /** classify_scalar */
  function ClassifyScalar(catalog: CodeCatalog, value: Word, limit: nat): Value {
    var atoms := ConstantAtoms(catalog, value);
    if |atoms| > 1 then Conflict
    else if |atoms| == 0 then Canonical({value}, {}, limit)
    else Canonical({}, {atoms[0]}, limit)
  }

  /** The placement puts catalogued things where the catalog says they are. */
  ghost predicate PlacedBy(p: Placement, catalog: CodeCatalog) {
    && (forall o | o in catalog.objects :: Address(p, o.id) == o.address)
    && (forall rva | rva in catalog.code :: Address(p, GuestRva(rva)) == Wrap(catalog.imageBase + rva))
    && (forall w | w in catalog.externals :: Address(p, catalog.externals[w]) == w)
  }

  /** A constant below the image base that is read as a code offset: it names code that is elsewhere. */
  predicate RawCodeConstant(catalog: CodeCatalog, value: Word, limit: nat) {
    && catalog.imageBase != 0 && value < catalog.imageBase
    && value in catalog.code
    && |ConstantAtoms(catalog, value)| == 1
    && limit > 0
  }

  lemma {:induction false} ObjectAtomsDenote(p: Placement, objects: seq<CatalogObject>, value: Word)
    requires forall o | o in objects :: Address(p, o.id) == o.address
    ensures forall a | a in ObjectAtoms(objects, value) :: a.Object? && AtomDenotes(p, a, value)
  {
    if objects != [] {
      assert Address(p, objects[0].id) == objects[0].address;
      ObjectAtomsDenote(p, objects[1..], value);
    }
  }

  lemma SingletonCanonical(a: Atom, limit: nat)
    ensures Canonical({}, {a}, limit) == if limit == 0 then Conflict else Finite({}, {a})
  {
    var none: set<Word> := {};
    assert Collapse({a}) == {ViewOf(a)};
    if limit > 0 {
      if a.View? { assert ViewOf(a) == a; } else { assert !HasView({a}); }
    } else {
      assert |none| + |{a}| > 0 && |none| + |{ViewOf(a)}| > 0;
      assert Collapse({ViewOf(a)}) == {ViewOf(a)};
    }
  }

  /** A constant is classified soundly exactly when it is not a raw code offset. */
  lemma ConstantSoundExactly(p: Placement, catalog: CodeCatalog, value: Word, limit: nat)
    requires PlacedBy(p, catalog)
    ensures Denotes(p, ClassifyScalar(catalog, value, limit), value) <==> !RawCodeConstant(catalog, value, limit)
  {
    var atoms := ConstantAtoms(catalog, value);
    ObjectAtomsDenote(p, catalog.objects, value);
    if |atoms| == 0 {
      CanonicalDenotes(p, {value}, {}, limit, value);
    } else if |atoms| == 1 {
      var a := atoms[0];
      SingletonCanonical(a, limit);
      var rva := GuestRvaOf(catalog, value);
      if rva in catalog.code && a == Other(GuestCode, GuestRva(rva), 0) {
        assert Address(p, a.id) == Wrap(catalog.imageBase + rva);
        assert AtomDenotes(p, a, value) <==> !(catalog.imageBase != 0 && value < catalog.imageBase);
      } else {
        assert a in ObjectAtoms(catalog.objects, value)
            || (value in catalog.externals && a == Other(ExternalFunction, catalog.externals[value], 0));
        assert AtomDenotes(p, a, value);
      }
    }
  }

  /** The constant 0x1000 in an image at 0x400000 whose code has an offset 0x1000: it is read as that code, which is at
      0x401000. */
  lemma RawCodeConstantMisread()
    ensures var catalog, p := CodeCatalog([], 0x40_0000, {0x1000}, map[]), Placement(id => 0x40_1000);
            PlacedBy(p, catalog) && !Denotes(p, ClassifyScalar(catalog, 0x1000, 16), 0x1000)
  {
    var catalog, p := CodeCatalog([], 0x40_0000, {0x1000}, map[]), Placement(id => 0x40_1000);
    assert ConstantAtoms(catalog, 0x1000) == [Other(GuestCode, GuestRva(0x1000), 0)];
    ConstantSoundExactly(p, catalog, 0x1000, 16);
  }

  // ----- addition and subtraction

  function Shifted(a: Atom, delta: int): Atom {
    match a
    case View(_) => a
    case Object(id, offset) => Object(id, offset + delta)
    case Other(kind, id, offset) => Other(kind, id, offset + delta)
  }

  predicate SameKind(a: Atom, b: Atom) {
    (a.Object? && b.Object?) || (a.View? && b.View?) || (a.Other? && b.Other? && a.kind == b.kind)
  }

  predicate SameAtom(a: Atom, b: Atom) { SameKind(a, b) && a.id == b.id }

  function OffsetOf(a: Atom): int { if a.View? then 0 else a.offset }

  /** Code and module references tolerate no displacement. */
  predicate Displaced(a: Atom, delta: Word) { a.Other? && Signed(delta) != 0 }

  predicate ViewDifference(a: Atom, b: Atom) {
    !a.Other? && !b.Other? && a.id == b.id && (a.View? || b.View?)
  }

  function SignedDelta(d: Word, negate: bool): int { if negate then -Signed(d) else Signed(d) }

  function MovedRefs(refs: set<Atom>, deltas: set<Word>, negate: bool): set<Atom> {
    set a, d | a in refs && d in deltas && !Displaced(a, d) :: Shifted(a, SignedDelta(d, negate))
  }

  predicate AnyDisplaced(refs: set<Atom>, deltas: set<Word>) {
    exists a, d | a in refs && d in deltas :: Displaced(a, d)
  }

  /** adjusted_reference: offsets move, matching references cancel, everything else is a conflict. */
  function AdjustedReference(left: Value, right: Value, subtract: bool, limit: nat): Value {
    if !left.Finite? || !right.Finite? then
      if left.Conflict? || right.Conflict? then Conflict else UnknownScalar
    else if subtract && exists a, b | a in left.refs && b in right.refs :: ViewDifference(a, b) then UnknownScalar
    else if AdjustmentConflicts(left, right, subtract) then Conflict
    else Canonical(AdjustedScalars(left, right, subtract), AdjustedRefs(left, right, subtract), limit)
  }

  lemma ShiftedDenotes(p: Placement, a: Atom, w: Word, d: Word, negate: bool)
    requires AtomDenotes(p, a, w)
    ensures AtomDenotes(p, Shifted(a, SignedDelta(d, negate)), if negate then Wrap(w - d) else Wrap(w + d))
  {
    if !a.View? {
      var base := Address(p, a.id) + a.offset;
      if negate { WrapSub(base, d); } else { WrapAdd(base, d); }
      WrapCongruent(base - d, base - Signed(d), if d < 0x8000_0000 then 0 else -1);
      WrapCongruent(base + d, base + Signed(d), if d < 0x8000_0000 then 0 else 1);
    }
  }

  lemma DifferenceDenotes(p: Placement, a: Atom, b: Atom, x: Word, y: Word)
    requires SameAtom(a, b) && !a.View? && AtomDenotes(p, a, x) && AtomDenotes(p, b, y)
    ensures Wrap(x - y) == Wrap(OffsetOf(a) - OffsetOf(b))
  {
    var base := Address(p, a.id);
    WrapSub(base + a.offset, y);
    WrapSub(base + a.offset, base + b.offset);
  }

  predicate AdjustmentConflicts(left: Value, right: Value, subtract: bool)
    requires left.Finite? && right.Finite?
  {
    || (subtract && left.scalars != {} && right.refs != {})
    || AnyDisplaced(left.refs, right.scalars)
    || (exists a, b | a in left.refs && b in right.refs :: !(subtract && SameAtom(a, b)))
    || (!subtract && AnyDisplaced(right.refs, left.scalars))
  }

  function AdjustedScalars(left: Value, right: Value, subtract: bool): set<Word>
    requires left.Finite? && right.Finite?
  {
    (set l, r | l in left.scalars && r in right.scalars :: if subtract then Wrap(l - r) else Wrap(l + r))
      + (set a, b | a in left.refs && b in right.refs :: Wrap(OffsetOf(a) - OffsetOf(b)))
  }

  function AdjustedRefs(left: Value, right: Value, subtract: bool): set<Atom>
    requires left.Finite? && right.Finite?
  {
    MovedRefs(left.refs, right.scalars, subtract)
      + (if subtract then {} else MovedRefs(right.refs, left.scalars, false))
  }

  lemma SumAlternative(left: Value, right: Value, subtract: bool, x: Word, y: Word, w: Word)
    requires left.Finite? && right.Finite? && x in left.scalars && y in right.scalars
    requires w == if subtract then Wrap(x - y) else Wrap(x + y)
    ensures w in AdjustedScalars(left, right, subtract)
  {
  }

  lemma MovedAlternative(p: Placement, refs: set<Atom>, deltas: set<Word>, negate: bool, x: Word, d: Word) returns (b: Atom)
    requires d in deltas && !AnyDisplaced(refs, deltas) && Denotes(p, Finite({}, refs), x)
    ensures b in MovedRefs(refs, deltas, negate) && AtomDenotes(p, b, if negate then Wrap(x - d) else Wrap(x + d))
  {
    var a :| a in refs && AtomDenotes(p, a, x);
    assert !Displaced(a, d);
    ShiftedDenotes(p, a, x, d, negate);
    b := Shifted(a, SignedDelta(d, negate));
  }

  lemma GapAlternative(p: Placement, left: Value, right: Value, x: Word, y: Word)
    requires left.Finite? && right.Finite?
    requires Denotes(p, Finite({}, left.refs), x) && Denotes(p, Finite({}, right.refs), y)
    requires forall a, b | a in left.refs && b in right.refs :: SameAtom(a, b) && !ViewDifference(a, b)
    ensures Wrap(x - y) in AdjustedScalars(left, right, true)
  {
    var a :| a in left.refs && AtomDenotes(p, a, x);
    var b :| b in right.refs && AtomDenotes(p, b, y);
    assert SameAtom(a, b) && !ViewDifference(a, b);
    DifferenceDenotes(p, a, b, x, y);
  }

  /** What the unbounded result allows: some alternative of it is the concrete one. */
  lemma AdjustedAlternative(p: Placement, left: Value, right: Value, subtract: bool, x: Word, y: Word, w: Word)
    requires left.Finite? && right.Finite? && Denotes(p, left, x) && Denotes(p, right, y)
    requires !AdjustmentConflicts(left, right, subtract)
    requires subtract ==> forall a, b | a in left.refs && b in right.refs :: !ViewDifference(a, b)
    requires w == if subtract then Wrap(x - y) else Wrap(x + y)
    ensures Denotes(p, Finite(AdjustedScalars(left, right, subtract), AdjustedRefs(left, right, subtract)), w)
  {
    var refs := AdjustedRefs(left, right, subtract);
    if x in left.scalars && y in right.scalars {
      SumAlternative(left, right, subtract, x, y, w);
    } else if y in right.scalars {
      var b := MovedAlternative(p, left.refs, right.scalars, subtract, x, y);
      assert b in refs;
    } else if x in left.scalars {
      assert Denotes(p, Finite({}, right.refs), y);
      var b := MovedAlternative(p, right.refs, left.scalars, false, y, x);
      assert b in refs;
    } else {
      assert Denotes(p, Finite({}, left.refs), x) && Denotes(p, Finite({}, right.refs), y);
      GapAlternative(p, left, right, x, y);
    }
  }

  lemma AdjustedDenotes(p: Placement, left: Value, right: Value, subtract: bool, limit: nat, x: Word, y: Word, w: Word)
    requires Denotes(p, left, x) && Denotes(p, right, y)
    requires w == if subtract then Wrap(x - y) else Wrap(x + y)
    ensures Denotes(p, AdjustedReference(left, right, subtract, limit), w)
  {
    var result := AdjustedReference(left, right, subtract, limit);
    if left.Finite? && right.Finite? && !result.Conflict? && !result.UnknownScalar? {
      AdjustedAlternative(p, left, right, subtract, x, y, w);
      CanonicalDenotes(p, AdjustedScalars(left, right, subtract), AdjustedRefs(left, right, subtract), limit, w);
    }
  }

  // ----- products of scalars

  /** Every choice of one scalar per argument, given up past the limit. */
  function ScalarRows(arguments: seq<Value>, limit: nat): Option<set<seq<Word>>>
    requires forall v | v in arguments :: v.Finite?
  {
    if arguments == [] then Some({[]})
    else
      match ScalarRows(arguments[..|arguments| - 1], limit)
      case None => None
      case Some(rows) =>
        var last := arguments[|arguments| - 1].scalars;
        var next := set row, w | row in rows && w in last :: row + [w];
        if |next| > limit then None else Some(next)
  }

  /** scalar_product */
  function ScalarProduct(arguments: seq<Value>, op: ProductOp, limit: nat): Value
    requires op.NotOp? || op.NegOp? || op.BoolToBitOp? ==> |arguments| >= 1
    requires op.ShlOp? || op.LshrOp? || op.MulLowOp? ==> |arguments| >= 2
  {
    if exists v | v in arguments :: v.Conflict? || (v.Finite? && v.refs != {}) then Conflict
    else if exists v | v in arguments :: !v.Finite? then UnknownScalar
    else
      match ScalarRows(arguments, limit)
      case None => Conflict
      case Some(rows) =>
        if op.Unmodelled? && rows != {} then UnknownScalar
        else
          var products := set row | row in rows && |row| == |arguments| :: Apply(op, row);
          if |products| > limit then Conflict else Canonical(products, {}, limit)
  }

  lemma {:induction false} RowChosen(arguments: seq<Value>, limit: nat, row: seq<Word>)
    requires forall v | v in arguments :: v.Finite?
    requires |row| == |arguments| && forall j | 0 <= j < |row| :: row[j] in arguments[j].scalars
    ensures ScalarRows(arguments, limit).Some? ==> row in ScalarRows(arguments, limit).value
  {
    if arguments != [] {
      var n := |arguments| - 1;
      RowChosen(arguments[..n], limit, row[..n]);
      assert row == row[..n] + [row[n]];
    }
  }

  lemma ProductDenotes(p: Placement, arguments: seq<Value>, op: ProductOp, limit: nat, row: seq<Word>, w: Word)
    requires op.NotOp? || op.NegOp? || op.BoolToBitOp? ==> |arguments| >= 1
    requires op.ShlOp? || op.LshrOp? || op.MulLowOp? ==> |arguments| >= 2
    requires |row| == |arguments| && forall j | 0 <= j < |row| :: Denotes(p, arguments[j], row[j])
    requires !op.Unmodelled? ==> w == Apply(op, row)
    ensures Denotes(p, ScalarProduct(arguments, op, limit), w)
  {
    var result := ScalarProduct(arguments, op, limit);
    if !result.Conflict? && !result.UnknownScalar? {
      forall j | 0 <= j < |row| ensures row[j] in arguments[j].scalars {
        assert arguments[j] in arguments;
      }
      RowChosen(arguments, limit, row);
      var rows := ScalarRows(arguments, limit).value;
      var products := set r | r in rows && |r| == |arguments| :: Apply(op, r);
      assert Apply(op, row) in products;
      CanonicalDenotes(p, products, {}, limit, w);
    }
  }

  // ----- alignment

  function AlignedAtom(a: Atom, mask: Word): Atom {
    match a
    case Object(id, offset) =>
      if id.Aligned? && id.mask == mask then Object(id, offset - offset % (Not(mask) + 1))
      else Object(Aligned(mask, id, offset), 0)
    case _ => a
  }

  predicate AlignableBy(reference: Value, mask: Value) {
    && reference.Finite? && reference.scalars == {} && reference.refs != {}
    && (forall a | a in reference.refs :: !a.Other?)
    && mask.Finite? && mask.refs == {} && |mask.scalars| == 1
    && forall m | m in mask.scalars :: IsAlignmentMask(m)
  }

  function AlignedBy(reference: Value, mask: Value, limit: nat): Value
    requires AlignableBy(reference, mask)
  {
    Canonical({}, set a, m | a in reference.refs && m in mask.scalars :: AlignedAtom(a, m), limit)
  }

  /** aligned_object_reference: masking an exact object reference derives an aligned object. */
  function AlignedObjectReference(arguments: seq<Value>, limit: nat): Option<Value> {
    if |arguments| != 2 then None
    else if AlignableBy(arguments[0], arguments[1]) then Some(AlignedBy(arguments[0], arguments[1], limit))
    else if AlignableBy(arguments[1], arguments[0]) then Some(AlignedBy(arguments[1], arguments[0], limit))
    else None
  }

  lemma AlignedAtomDenotes(p: Placement, a: Atom, mask: Word, w: Word)
    requires !a.Other? && IsAlignmentMask(mask) && AtomDenotes(p, a, w)
    ensures AtomDenotes(p, AlignedAtom(a, mask), And(w, mask))
  {
    if a.Object? {
      if a.id.Aligned? && a.id.mask == mask {
        AlignedAgain(p, mask, a, w);
      } else {
        NewlyAligned(p, mask, a, w);
      }
    }
  }

  lemma NewlyAligned(p: Placement, mask: Word, a: Atom, w: Word)
    requires a.Object? && AtomDenotes(p, a, w) && !(a.id.Aligned? && a.id.mask == mask)
    ensures AtomDenotes(p, AlignedAtom(a, mask), And(w, mask))
  {
    AlignedAddress(p, mask, a.id, a.offset, w);
    WrapOfWord(And(w, mask));
  }

  lemma AlignedAgain(p: Placement, mask: Word, a: Atom, w: Word)
    requires a.Object? && AtomDenotes(p, a, w) && IsAlignmentMask(mask) && a.id.Aligned? && a.id.mask == mask
    ensures AtomDenotes(p, AlignedAtom(a, mask), And(w, mask))
  {
    RealignedDenotes(p, mask, a.id.base, a.id.offset, a.offset, w);
  }

  lemma AlignedAddress(p: Placement, mask: Word, id: Identity, offset: int, w: Word)
    requires w == Wrap(Address(p, id) + offset)
    ensures Address(p, Aligned(mask, id, offset)) == And(w, mask)
  {
  }

  lemma RealignedDenotes(p: Placement, mask: Word, base: Identity, inner: int, offset: int, w: Word)
    requires IsAlignmentMask(mask) && w == Wrap(Address(p, Aligned(mask, base, inner)) + offset)
    ensures And(w, mask) == Wrap(Address(p, Aligned(mask, base, inner)) + (offset - offset % (Not(mask) + 1)))
  {
    var x: Word := Wrap(Address(p, base) + inner);
    AlignedAddress(p, mask, base, inner, x);
    RoundAligned(mask, x, offset);
  }

  lemma AlignedDenotes(p: Placement, reference: Value, mask: Value, limit: nat, x: Word, m: Word)
    requires AlignableBy(reference, mask) && Denotes(p, reference, x) && Denotes(p, mask, m)
    ensures Denotes(p, AlignedBy(reference, mask, limit), And(x, m))
  {
    var a :| a in reference.refs && AtomDenotes(p, a, x);
    assert m in mask.scalars;
    AlignedAtomDenotes(p, a, m, x);
    var rows := set a, m | a in reference.refs && m in mask.scalars :: AlignedAtom(a, m);
    assert AlignedAtom(a, m) in rows;
    CanonicalDenotes(p, {}, rows, limit, And(x, m));
  }

  lemma ApplyAndPair(x: Word, y: Word)
    ensures Apply(AndOp, [x, y]) == And(x, y)
  {
    AndOnes(x);
    assert [x, y][..1] == [x] && [x][..0] == [];
    assert Apply(AndOp, [x]) == And(ALL_ONES, x);
  }

  // ----- abstract evaluation

  /** What the evaluator reads: register values, recorded scalar constraints (register, mask) -> words, the
      values of opaque nodes, and the alternative limit of each node. */
  datatype Environment = Environment(
    catalog: CodeCatalog,
    initial: seq<Value>,
    current: seq<Value>,
    constraints: map<(nat, Word), set<Word>>,
    opaques: nat -> Value,
    limits: nat -> nat)

  predicate ValidEnvironment(env: Environment) { |env.initial| == |env.current| == REGISTER_COUNT }

  predicate IsCurrentReg(node: Node) { node.op.Reg? && node.op.current && node.op.index < REGISTER_COUNT }

  /** masked_register_subject: the register and mask a node tests, if it has that shape. */
  function MaskedSubject(graph: seq<Node>, i: nat): Option<(nat, Word)>
    requires ValidGraph(graph) && i < |graph|
  {
    var node := graph[i];
    if IsCurrentReg(node) then Some((node.op.index, ALL_ONES))
    else if node.op != Product(AndOp) || |node.operands| != 2 then None
    else
      var first, second := graph[node.operands[0]], graph[node.operands[1]];
      if node.operands[0] == node.operands[1] && IsCurrentReg(first) then Some((first.op.index, ALL_ONES))
      else if IsCurrentReg(first) && second.op.Const? then Some((first.op.index, second.op.immediate))
      else if IsCurrentReg(second) && first.op.Const? then Some((second.op.index, first.op.immediate))
      else None
  }

  /** interpret_expression */
  function Interpret(node: Node, env: Environment, i: nat, arguments: seq<Value>): Value
    requires ArityOk(node) && ValidEnvironment(env) && |arguments| == |node.operands|
  {
    var limit := env.limits(i);
    match node.op
    case Const(immediate) => ClassifyScalar(env.catalog, immediate, limit)
    case Reg(index, current) => if current then env.current[index] else env.initial[index]
    case Opaque => env.opaques(i)
    case Add => AdjustedReference(arguments[0], arguments[1], false, limit)
    case Sub => AdjustedReference(arguments[0], arguments[1], true, limit)
    case Ite => Join(arguments[1], arguments[2], limit)
    case Product(op) =>
      if op.AndOp? && AlignedObjectReference(arguments, limit).Some? then AlignedObjectReference(arguments, limit).value
      else ScalarProduct(arguments, op, limit)
  }

  /** The value of a node: recorded constraints on a tested register win over its expression. */
  function NodeValue(graph: seq<Node>, env: Environment, i: nat, arguments: seq<Value>): Value
    requires ValidGraph(graph) && ValidEnvironment(env) && i < |graph|
    requires |arguments| == |graph[i].operands|
  {
    var subject := MaskedSubject(graph, i);
    if subject.Some? && subject.value in env.constraints
    then Canonical(env.constraints[subject.value], {}, STACK_ALTERNATIVE_LIMIT)
    else Interpret(graph[i], env, i, arguments)
  }

  function Eval(graph: seq<Node>, env: Environment, i: nat): Value
    requires ValidGraph(graph) && ValidEnvironment(env) && i < |graph|
    decreases i, 1
  {
    NodeValue(graph, env, i, EvalRow(graph, env, i))
  }

  function EvalRow(graph: seq<Node>, env: Environment, i: nat): (row: seq<Value>)
    requires ValidGraph(graph) && ValidEnvironment(env) && i < |graph|
    decreases i, 0
  {
    var operands := graph[i].operands;
    seq(|operands|, j requires 0 <= j < |operands| => Eval(graph, env, operands[j]))
  }

  // ----- memoised evaluation computes Eval

  ghost predicate Memoised(graph: seq<Node>, env: Environment, memo: array<Option<Value>>)
    requires ValidGraph(graph) && ValidEnvironment(env)
    reads memo
  {
    memo.Length == |graph| && forall j | 0 <= j < memo.Length :: memo[j].Some? ==> memo[j].value == Eval(graph, env, j)
  }

  /** evaluate_word */
  method EvaluateWord(graph: seq<Node>, env: Environment, index: nat, memo: array<Option<Value>>)
    returns (value: Value)
    requires ValidGraph(graph) && ValidEnvironment(env) && index < |graph|
    requires Memoised(graph, env, memo)
    modifies memo
    ensures Memoised(graph, env, memo)
    ensures value == Eval(graph, env, index) && memo[index] == Some(value)
    ensures forall j | 0 <= j < memo.Length :: old(memo[j]).Some? ==> memo[j] == old(memo[j])
    decreases index
  {
    if memo[index].Some? { return memo[index].value; }
    var operands := graph[index].operands;
    var arguments: seq<Value> := [];
    for k := 0 to |operands|
      invariant Memoised(graph, env, memo)
      invariant arguments == EvalRow(graph, env, index)[..k]
      invariant forall j | 0 <= j < memo.Length :: old(memo[j]).Some? ==> memo[j] == old(memo[j])
    {
      var argument := EvaluateWord(graph, env, operands[k], memo);
      arguments := arguments + [argument];
    }
    assert arguments == EvalRow(graph, env, index);
    value := NodeValue(graph, env, index, arguments);
    memo[index] := Some(value);
  }

  /** evaluate_transfer_expressions: one shared memo, every node. */
  method EvaluateAll(graph: seq<Node>, env: Environment) returns (values: seq<Value>)
    requires ValidGraph(graph) && ValidEnvironment(env)
    ensures |values| == |graph| && forall i | 0 <= i < |graph| :: values[i] == Eval(graph, env, i)
  {
    var memo := new Option<Value>[|graph|](_ => None);
    values := [];
    for i := 0 to |graph|
      invariant Memoised(graph, env, memo)
      invariant |values| == i && forall j | 0 <= j < i :: values[j] == Eval(graph, env, j)
    {
      var value := EvaluateWord(graph, env, i, memo);
      values := values + [value];
    }
  }

  // ----- soundness

  /** The machine is one the abstract environment describes. */
  ghost predicate Describes(p: Placement, graph: seq<Node>, env: Environment, m: Machine)
    requires ValidEnvironment(env) && ValidMachine(m)
  {
    && PlacedBy(p, env.catalog)
    && (forall r | 0 <= r < REGISTER_COUNT :: Denotes(p, env.initial[r], m.initial[r]) && Denotes(p, env.current[r], m.current[r]))
    && (forall i | 0 <= i < |graph| && graph[i].op.Opaque? :: Denotes(p, env.opaques(i), m.opaques(i)))
    && (forall key | key in env.constraints && key.0 < REGISTER_COUNT :: And(m.current[key.0], key.1) in env.constraints[key])
  }

  /** The two guards the evaluator does not take itself: an addition has two operands, and a constant is not a raw
      code offset. */
  predicate NodeFaithful(node: Node, env: Environment, i: nat) {
    && (node.op.Add? ==> |node.operands| == 2)
    && (node.op.Const? ==> !RawCodeConstant(env.catalog, node.op.immediate, env.limits(i)))
  }

  /** A recorded constraint decides the node, whatever its operands. */
  predicate Overridden(graph: seq<Node>, env: Environment, i: nat)
    requires ValidGraph(graph) && i < |graph|
  {
    MaskedSubject(graph, i).Some? && MaskedSubject(graph, i).value in env.constraints
  }

  /** The guards hold at every node the value of i is computed from. */
  predicate Faithful(graph: seq<Node>, env: Environment, i: nat)
    requires ValidGraph(graph) && i < |graph|
    decreases i
  {
    || Overridden(graph, env, i)
    || (NodeFaithful(graph[i], env, i)
        && forall j | 0 <= j < |graph[i].operands| :: Faithful(graph, env, graph[i].operands[j]))
  }

  lemma SubjectSound(p: Placement, graph: seq<Node>, env: Environment, m: Machine, i: nat)
    requires ValidGraph(graph) && ValidEnvironment(env) && ValidMachine(m) && i < |graph|
    requires Describes(p, graph, env, m)
    requires MaskedSubject(graph, i).Some? && MaskedSubject(graph, i).value in env.constraints
    ensures Concrete(graph, m, i) in env.constraints[MaskedSubject(graph, i).value]
  {
    var node, key := graph[i], MaskedSubject(graph, i).value;
    if IsCurrentReg(node) {
      AndOnes(m.current[key.0]);
    } else {
      var row := ConcreteRow(graph, m, i);
      assert row == [Concrete(graph, m, node.operands[0]), Concrete(graph, m, node.operands[1])];
      ApplyAndPair(row[0], row[1]);
      AndCommutes(row[0], row[1]);
      AndSelf(m.current[key.0]);
      AndOnes(m.current[key.0]);
    }
  }

  lemma SumOfPair(x: Word, y: Word)
    ensures SumOf([x, y]) == Wrap(x + y)
  {
    assert [x, y][..1] == [x] && [x][..0] == [];
    assert SumOf([x]) == Wrap(0 + x);
  }

  lemma AndDenotes(p: Placement, values: seq<Value>, limit: nat, words: seq<Word>)
    requires |values| == |words| == 2 && Denotes(p, values[0], words[0]) && Denotes(p, values[1], words[1])
    requires AlignedObjectReference(values, limit).Some?
    ensures Denotes(p, AlignedObjectReference(values, limit).value, Apply(AndOp, words))
  {
    assert words == [words[0], words[1]];
    ApplyAndPair(words[0], words[1]);
    AndCommutes(words[0], words[1]);
    if AlignableBy(values[0], values[1]) {
      AlignedDenotes(p, values[0], values[1], limit, words[0], words[1]);
    } else {
      AlignedDenotes(p, values[1], values[0], limit, words[1], words[0]);
    }
  }

  lemma ProductSound(p: Placement, node: Node, env: Environment, m: Machine, i: nat,
                     values: seq<Value>, words: seq<Word>)
    requires ArityOk(node) && ValidEnvironment(env) && ValidMachine(m) && node.op.Product?
    requires |words| == |values| == |node.operands|
    requires forall j | 0 <= j < |values| :: Denotes(p, values[j], words[j])
    ensures Denotes(p, Interpret(node, env, i, values), Meaning(node, m, i, words))
  {
    var limit, op := env.limits(i), node.op.op;
    if op.AndOp? && AlignedObjectReference(values, limit).Some? {
      AndDenotes(p, values, limit, words);
    } else {
      ProductDenotes(p, values, op, limit, words, Meaning(node, m, i, words));
    }
  }

  lemma AddSound(p: Placement, left: Value, right: Value, limit: nat, words: seq<Word>)
    requires |words| == 2 && Denotes(p, left, words[0]) && Denotes(p, right, words[1])
    ensures Denotes(p, AdjustedReference(left, right, false, limit), SumOf(words))
  {
    var x: int, y: int := words[0], words[1];
    assert words == [x, y];
    SumOfPair(x, y);
    AdjustedDenotes(p, left, right, false, limit, x, y, SumOf(words));
  }

  /** The operator cases: sound on the operands' values, sound on the node. */
  lemma OperatorSound(p: Placement, node: Node, env: Environment, m: Machine, i: nat,
                      values: seq<Value>, words: seq<Word>)
    requires ArityOk(node) && ValidEnvironment(env) && ValidMachine(m)
    requires node.op.Add? || node.op.Sub? || node.op.Ite?
    requires node.op.Add? ==> |node.operands| == 2
    requires |words| == |values| == |node.operands|
    requires forall j | 0 <= j < |values| :: Denotes(p, values[j], words[j])
    ensures Denotes(p, Interpret(node, env, i, values), Meaning(node, m, i, words))
  {
    var limit, w := env.limits(i), Meaning(node, m, i, words);
    match node.op
    case Add => AddSound(p, values[0], values[1], limit, words);
    case Sub => AdjustedDenotes(p, values[0], values[1], true, limit, words[0], words[1], w);
    case Ite => JoinDenotes(p, values[1], values[2], limit, w);
  }

  lemma InterpretSound(p: Placement, graph: seq<Node>, env: Environment, m: Machine, i: nat)
    requires ValidGraph(graph) && ValidEnvironment(env) && ValidMachine(m) && i < |graph|
    requires Describes(p, graph, env, m) && NodeFaithful(graph[i], env, i)
    requires forall j | 0 <= j < |graph[i].operands| ::
               Denotes(p, Eval(graph, env, graph[i].operands[j]), Concrete(graph, m, graph[i].operands[j]))
    ensures Denotes(p, Interpret(graph[i], env, i, EvalRow(graph, env, i)), Concrete(graph, m, i))
  {
    var node, values, words := graph[i], EvalRow(graph, env, i), ConcreteRow(graph, m, i);
    assert forall j | 0 <= j < |values| :: Denotes(p, values[j], words[j]);
    match node.op
    case Const(immediate) => ConstantSoundExactly(p, env.catalog, immediate, env.limits(i));
    case Reg(_, _) =>
    case Opaque =>
    case Product(_) => ProductSound(p, node, env, m, i, values, words);
    case _ => OperatorSound(p, node, env, m, i, values, words);
  }

  /** A node's concrete word lies in its abstract value, for every placement, every machine the environment
      describes, and every choice of alternative limits. */
  lemma {:induction false} ExpressionSound(p: Placement, graph: seq<Node>, env: Environment, m: Machine, i: nat)
    requires ValidGraph(graph) && ValidEnvironment(env) && ValidMachine(m) && i < |graph|
    requires Describes(p, graph, env, m) && Faithful(graph, env, i)
    ensures Denotes(p, Eval(graph, env, i), Concrete(graph, m, i))
    decreases i
  {
    var subject := MaskedSubject(graph, i);
    if Overridden(graph, env, i) {
      SubjectSound(p, graph, env, m, i);
      CanonicalDenotes(p, env.constraints[subject.value], {}, STACK_ALTERNATIVE_LIMIT, Concrete(graph, m, i));
    } else {
      forall j | 0 <= j < |graph[i].operands|
        ensures Denotes(p, Eval(graph, env, graph[i].operands[j]), Concrete(graph, m, graph[i].operands[j]))
      {
        ExpressionSound(p, graph, env, m, graph[i].operands[j]);
      }
      InterpretSound(p, graph, env, m, i);
    }
  }
}
