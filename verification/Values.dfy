/** The abstract value domain of the reference kernel: finite sets of scalars and reference atoms,
    bounded by an alternative limit, with two widened values above them. */
module Values {
  import opened Words
  import opened Identities
  import opened Sets

  const REGISTER_COUNT: nat := 8
  const ESP: nat := 7

  /** The stack pointer keeps at least this many alternatives. */
  const STACK_ALTERNATIVE_LIMIT: nat := 256

  function StackLimit(limit: nat): nat { if limit > STACK_ALTERNATIVE_LIMIT then limit else STACK_ALTERNATIVE_LIMIT }

  datatype OtherKind = GuestCode | ExternalFunction | LoaderModule

  /** A reference alternative.  An object view stands for its object at an unknown offset. */
  datatype Atom =
    | Object(id: Identity, offset: int)
    | View(id: Identity)
    | Other(kind: OtherKind, id: Identity, offset: int)

  /** Alternatives are kept sorted and duplicate-free, so they are sets here. */
  datatype Value =
    | Bottom
    | Finite(scalars: set<Word>, refs: set<Atom>)
    | UnknownScalar
    | Conflict

  function ViewOf(a: Atom): Atom { if a.Object? then View(a.id) else a }

  /** Forgets every exact offset. */
  function Collapse(refs: set<Atom>): set<Atom> { set a | a in refs :: ViewOf(a) }

  predicate HasView(refs: set<Atom>) { exists a | a in refs :: a.View? }

  predicate HasObject(refs: set<Atom>) { exists a | a in refs :: a.Object? }

  /** canonical_value on a finite value: views absorb exact offsets, and past the limit first the
      offsets and then the whole value are given up. */
  function Canonical(scalars: set<Word>, refs: set<Atom>, limit: nat): Value {
    if scalars == {} && refs == {} then Bottom
    else
      var exact := if HasView(refs) then Collapse(refs) else refs;
      if |scalars| + |exact| <= limit then Finite(scalars, exact)
      else if |scalars| + |Collapse(exact)| <= limit then Finite(scalars, Collapse(exact))
      else Conflict
  }

  function Join(left: Value, right: Value, limit: nat): Value {
    if left.Bottom? then right
    else if right.Bottom? then left
    else if left.Conflict? || right.Conflict? then Conflict
    else if left.UnknownScalar? || right.UnknownScalar? then
      var other := if left.UnknownScalar? then right else left;
      if other.UnknownScalar? || (other.Finite? && other.refs == {}) then UnknownScalar else Conflict
    else Canonical(left.scalars + right.scalars, left.refs + right.refs, limit)
  }

  /** The join of one slot of a state: equal slots are kept without being rebuilt. */
  function SlotJoin(left: Value, right: Value, limit: nat): Value {
    if left == right then left else Join(left, right, limit)
  }

  /** Finite values are nonempty and never mix exact offsets with views. */
  predicate WellFormed(v: Value) {
    v.Finite? ==> (v.scalars != {} || v.refs != {}) && !(HasView(v.refs) && HasObject(v.refs))
  }

  predicate IsCanonical(v: Value, limit: nat) {
    WellFormed(v) && (v.Finite? ==> |v.scalars| + |v.refs| <= limit)
  }

  predicate Covers(x: Value, y: Value, limit: nat) { SlotJoin(x, y, limit) == x }

  /** What coverage means, without the join: x allows everything y allows. */
  predicate Below(y: Value, x: Value) {
    match (y, x)
    case (Bottom, _) => true
    case (_, Conflict) => true
    case (UnknownScalar, UnknownScalar) => true
    case (Finite(_, refs), UnknownScalar) => refs == {}
    case (Finite(ys, yr), Finite(xs, xr)) =>
      ys <= xs && (if HasView(xr) then Collapse(yr) <= xr else yr <= xr)
    case _ => false
  }

  // ----- collapsing

  lemma CollapseFixed(refs: set<Atom>)
    requires !HasObject(refs)
    ensures Collapse(refs) == refs
  {
    forall a | a in refs ensures ViewOf(a) == a { }
  }

  lemma CollapseNoObject(refs: set<Atom>)
    ensures !HasObject(Collapse(refs))
    ensures Collapse(Collapse(refs)) == Collapse(refs)
  {
    CollapseFixed(Collapse(refs));
  }

  lemma CollapseUnion(a: set<Atom>, b: set<Atom>)
    ensures Collapse(a + b) == Collapse(a) + Collapse(b)
  {
  }

  lemma ViewMonotone(a: set<Atom>, b: set<Atom>)
    requires a <= b
    ensures HasView(a) ==> HasView(b)
    ensures HasObject(a) ==> HasObject(b)
  {
  }

  /** A collapsed set shows a view exactly when the original named an object at all. */
  lemma CollapseViews(refs: set<Atom>)
    ensures HasView(Collapse(refs)) <==> HasView(refs) || HasObject(refs)
    ensures Collapse(refs) == {} <==> refs == {}
  {
    forall a | a in refs ensures ViewOf(a) in Collapse(refs) { }
  }

  lemma CollapseMonotone(a: set<Atom>, b: set<Atom>)
    requires a <= b
    ensures Collapse(a) <= Collapse(b)
  {
  }

  // ----- canonical values

  lemma CanonicalIsCanonical(scalars: set<Word>, refs: set<Atom>, limit: nat)
    ensures IsCanonical(Canonical(scalars, refs, limit), limit)
  {
    CollapseNoObject(refs);
    CollapseViews(refs);
    var exact := if HasView(refs) then Collapse(refs) else refs;
    CollapseNoObject(exact);
    CollapseViews(exact);
  }

  /** Canonicalising a canonical value changes nothing. */
  lemma CanonicalFixed(v: Value, limit: nat)
    requires v.Finite? && IsCanonical(v, limit)
    ensures Canonical(v.scalars, v.refs, limit) == v
  {
    if HasView(v.refs) { CollapseFixed(v.refs); }
  }

  lemma JoinCommutes(x: Value, y: Value, limit: nat)
    ensures Join(x, y, limit) == Join(y, x, limit)
    ensures SlotJoin(x, y, limit) == SlotJoin(y, x, limit)
  {
    if x.Finite? && y.Finite? {
      assert x.scalars + y.scalars == y.scalars + x.scalars;
      assert x.refs + y.refs == y.refs + x.refs;
    }
  }

  lemma JoinIsCanonical(x: Value, y: Value, limit: nat)
    requires IsCanonical(x, limit) && IsCanonical(y, limit)
    ensures IsCanonical(Join(x, y, limit), limit)
  {
    if x.Finite? && y.Finite? { CanonicalIsCanonical(x.scalars + y.scalars, x.refs + y.refs, limit); }
  }

  lemma SlotJoinWellFormed(x: Value, y: Value, limit: nat)
    requires WellFormed(x) && WellFormed(y)
    ensures WellFormed(SlotJoin(x, y, limit))
  {
    if x.Finite? && y.Finite? { CanonicalIsCanonical(x.scalars + y.scalars, x.refs + y.refs, limit); }
  }

  // ----- coverage is an order, and the join is an upper bound in it

  lemma BelowReflexive(x: Value)
    requires WellFormed(x)
    ensures Below(x, x)
  {
    if x.Finite? && HasView(x.refs) { CollapseFixed(x.refs); }
  }

  lemma BelowTransitive(x: Value, y: Value, z: Value)
    requires WellFormed(z)
    requires Below(x, y) && Below(y, z)
    ensures Below(x, z)
  {
    if x.Finite? && y.Finite? && z.Finite? {
      CollapseNoObject(x.refs);
      if HasView(y.refs) {
        CollapseViews(y.refs);
        CollapseMonotone(Collapse(x.refs), y.refs);
      } else {
        CollapseMonotone(x.refs, y.refs);
      }
    }
  }

  lemma BelowAntisymmetric(x: Value, y: Value)
    requires WellFormed(x) && WellFormed(y) && Below(x, y) && Below(y, x)
    ensures x == y
  {
    if x.Finite? && y.Finite? {
      if HasView(x.refs) { CollapseFixed(x.refs); }
      if HasView(y.refs) { CollapseFixed(y.refs); }
      if !HasView(y.refs) { ViewMonotone(x.refs, y.refs); }
      if !HasView(x.refs) { ViewMonotone(y.refs, x.refs); }
    }
  }

  /** What canonicalising the union of two finite values leaves of either of them. */
  lemma CanonicalAbove(scalars: set<Word>, refs: set<Atom>, limit: nat, s: set<Word>, r: set<Atom>)
    requires s <= scalars && r <= refs
    requires s != {} || r != {}
    ensures Below(Finite(s, r), Canonical(scalars, refs, limit))
  {
    var exact := if HasView(refs) then Collapse(refs) else refs;
    CollapseMonotone(r, refs);
    CollapseNoObject(refs);
    CollapseViews(refs);
    CollapseViews(exact);
    if !HasObject(refs) { CollapseFixed(refs); }
  }

  lemma JoinUpperBound(x: Value, y: Value, limit: nat)
    requires WellFormed(x) && WellFormed(y)
    ensures Below(x, Join(x, y, limit)) && Below(y, Join(x, y, limit))
  {
    BelowReflexive(x);
    BelowReflexive(y);
    if x.Finite? && y.Finite? {
      CanonicalAbove(x.scalars + y.scalars, x.refs + y.refs, limit, x.scalars, x.refs);
      CanonicalAbove(x.scalars + y.scalars, x.refs + y.refs, limit, y.scalars, y.refs);
    }
  }

  /** A scalar set too large for the limit is the one join that overshoots: `unknown_scalar` would do. */
  predicate ScalarOverflow(x: Value, y: Value, limit: nat) {
    x.Finite? && y.Finite? && x.refs == {} && y.refs == {} && |x.scalars + y.scalars| > limit
  }

  /** Outside that case the join is the least of all canonical upper bounds. */
  lemma JoinLeast(x: Value, y: Value, u: Value, limit: nat)
    requires WellFormed(x) && WellFormed(y) && IsCanonical(u, limit)
    requires Below(x, u) && Below(y, u)
    requires !(ScalarOverflow(x, y, limit) && u.UnknownScalar?)
    ensures Below(Join(x, y, limit), u)
  {
    if x.Finite? && y.Finite? {
      var s, r := x.scalars + y.scalars, x.refs + y.refs;
      var exact := if HasView(r) then Collapse(r) else r;
      CollapseUnion(x.refs, y.refs);
      CollapseNoObject(r);
      CollapseNoObject(exact);
      if u.Finite? {
        SubsetCard(s, u.scalars);
        if HasView(u.refs) {
          SubsetCard(Collapse(r), u.refs);
          assert Collapse(exact) == Collapse(r);
        } else {
          ViewMonotone(x.refs, u.refs);
          ViewMonotone(y.refs, u.refs);
          assert !HasView(r);
          SubsetCard(r, u.refs);
        }
      } else if u.UnknownScalar? {
        assert r == {};
      }
    }
  }

  /** Coverage through the join and coverage through alternatives are the same relation. */
  lemma CoversMeansBelow(x: Value, y: Value, limit: nat)
    requires IsCanonical(x, limit) && WellFormed(y)
    ensures Covers(x, y, limit) <==> Below(y, x)
  {
    BelowReflexive(x);
    if Covers(x, y, limit) {
      JoinUpperBound(x, y, limit);
    }
    if Below(y, x) && x != y && !y.Bottom? {
      if !(ScalarOverflow(x, y, limit) && x.UnknownScalar?) {
        JoinLeast(x, y, x, limit);
        JoinUpperBound(x, y, limit);
        SlotJoinWellFormed(x, y, limit);
        BelowAntisymmetric(x, Join(x, y, limit));
      }
    }
  }

  /** A value above the limit covers only itself and bottom. */
  lemma OversizedCovers(x: Value, y: Value, limit: nat)
    requires WellFormed(x) && !IsCanonical(x, limit) && WellFormed(y)
    ensures Covers(x, y, limit) <==> y == x || y.Bottom?
  {
    if Covers(x, y, limit) && y.Finite? && x != y {
      CanonicalIsCanonical(x.scalars + y.scalars, x.refs + y.refs, limit);
    }
  }

  lemma SlotJoinCovers(x: Value, y: Value, limit: nat)
    requires WellFormed(x) && WellFormed(y)
    ensures Covers(SlotJoin(x, y, limit), x, limit)
    ensures Covers(SlotJoin(x, y, limit), y, limit)
  {
    var j := SlotJoin(x, y, limit);
    if x != y && !x.Bottom? && !y.Bottom? {
      if x.Finite? && y.Finite? {
        CanonicalIsCanonical(x.scalars + y.scalars, x.refs + y.refs, limit);
      }
      JoinUpperBound(x, y, limit);
      CoversMeansBelow(j, x, limit);
      CoversMeansBelow(j, y, limit);
    }
  }

  lemma CoversTransitive(x: Value, y: Value, z: Value, limit: nat)
    requires WellFormed(x) && WellFormed(y) && WellFormed(z)
    requires Covers(z, y, limit) && Covers(y, x, limit)
    ensures Covers(z, x, limit)
  {
    if IsCanonical(z, limit) {
      CoversMeansBelow(z, y, limit);
      if IsCanonical(y, limit) {
        CoversMeansBelow(y, x, limit);
        BelowTransitive(x, y, z);
        CoversMeansBelow(z, x, limit);
      } else {
        OversizedCovers(y, x, limit);
      }
    } else {
      OversizedCovers(z, y, limit);
      if y.Bottom? && !x.Bottom? { assert false; }
    }
  }

  // ----- associativity, and exactly where it fails

  /** Two scalar sets that overflow, grouped together, beside an unknown scalar. */
  predicate BadGrouping(x: Value, y: Value, z: Value, limit: nat) {
    || (ScalarOverflow(x, y, limit) && z.UnknownScalar?)
    || (ScalarOverflow(y, z, limit) && x.UnknownScalar?)
  }

  lemma JoinAssociativeExactly(x: Value, y: Value, z: Value, limit: nat)
    requires IsCanonical(x, limit) && IsCanonical(y, limit) && IsCanonical(z, limit)
    ensures Join(Join(x, y, limit), z, limit) == Join(x, Join(y, z, limit), limit)
        <==> !BadGrouping(x, y, z, limit)
  {
    if BadGrouping(x, y, z, limit) {
      BadGroupingDiffers(x, y, z, limit);
    } else {
      HalfAssociative(x, y, z, limit);
      OtherHalf(x, y, z, limit);
      JoinIsCanonical(x, y, limit);
      JoinIsCanonical(y, z, limit);
      JoinIsCanonical(Join(x, y, limit), z, limit);
      JoinIsCanonical(x, Join(y, z, limit), limit);
      BelowAntisymmetric(Join(Join(x, y, limit), z, limit), Join(x, Join(y, z, limit), limit));
    }
  }

  lemma OtherHalf(x: Value, y: Value, z: Value, limit: nat)
    requires IsCanonical(x, limit) && IsCanonical(y, limit) && IsCanonical(z, limit)
    requires !BadGrouping(x, y, z, limit)
    ensures Below(Join(x, Join(y, z, limit), limit), Join(Join(x, y, limit), z, limit))
  {
    if x.Finite? && y.Finite? { assert x.scalars + y.scalars == y.scalars + x.scalars; }
    if y.Finite? && z.Finite? { assert y.scalars + z.scalars == z.scalars + y.scalars; }
    HalfAssociative(z, y, x, limit);
    JoinCommutes(z, y, limit);
    JoinCommutes(y, x, limit);
    JoinCommutes(Join(y, z, limit), x, limit);
    JoinCommutes(z, Join(x, y, limit), limit);
  }

  lemma OverflowIsConflict(x: Value, y: Value, limit: nat)
    requires ScalarOverflow(x, y, limit)
    ensures Join(x, y, limit) == Conflict
  {
    assert x.refs + y.refs == {};
    CollapseFixed(x.refs + y.refs);
    assert x.scalars + y.scalars != {};
  }

  lemma BadGroupingDiffers(x: Value, y: Value, z: Value, limit: nat)
    requires BadGrouping(x, y, z, limit)
    ensures Join(Join(x, y, limit), z, limit) != Join(x, Join(y, z, limit), limit)
  {
    if ScalarOverflow(x, y, limit) && z.UnknownScalar? {
      OverflowIsConflict(x, y, limit);
    } else {
      OverflowIsConflict(y, z, limit);
    }
  }

  lemma HalfAssociative(x: Value, y: Value, z: Value, limit: nat)
    requires IsCanonical(x, limit) && IsCanonical(y, limit) && IsCanonical(z, limit)
    requires !BadGrouping(x, y, z, limit)
    ensures Below(Join(Join(x, y, limit), z, limit), Join(x, Join(y, z, limit), limit))
  {
    var yz := Join(y, z, limit);
    var u := Join(x, yz, limit);
    JoinIsCanonical(y, z, limit);
    JoinIsCanonical(x, yz, limit);
    JoinIsCanonical(x, y, limit);
    JoinUpperBound(y, z, limit);
    JoinUpperBound(x, yz, limit);
    BelowTransitive(y, yz, u);
    BelowTransitive(z, yz, u);
    if ScalarOverflow(x, y, limit) && u.UnknownScalar? {
      assert false;
    }
    JoinLeast(x, y, u, limit);
    if ScalarOverflow(Join(x, y, limit), z, limit) && u.UnknownScalar? {
      assert false;
    }
    JoinLeast(Join(x, y, limit), z, u, limit);
  }

  /** A concrete triple on which grouping matters. */
  lemma JoinNotAssociative()
    ensures Join(Join(Finite({0}, {}), Finite({1}, {}), 1), UnknownScalar, 1) == Conflict
    ensures Join(Finite({0}, {}), Join(Finite({1}, {}), UnknownScalar, 1), 1) == UnknownScalar
  {
    var a: set<Word>, b: set<Word> := {0}, {1};
    assert |a + b| == 2 by { assert a + b == {0, 1}; }
    var none: set<Atom> := {};
    assert Collapse(none) == {};
  }

  // ----- finite height

  /** How many strict changes lie below a value: oversized alternatives, then exact ones by size, then
      views by size, then the two widened values. */
  function Rank(v: Value, limit: nat): (r: nat)
    ensures r <= 2 * limit + 3
  {
    match v
    case Bottom => 0
    case Finite(s, r) =>
      if |s| + |r| > limit then 1
      else if HasView(r) then limit + 1 + |s| + |r|
      else 1 + |s| + |r|
    case UnknownScalar => 2 * limit + 2
    case Conflict => 2 * limit + 3
  }

  lemma BelowRank(y: Value, x: Value, limit: nat)
    requires WellFormed(y) && IsCanonical(x, limit) && Below(y, x) && y != x
    ensures Rank(y, limit) < Rank(x, limit)
  {
    if x.Finite? && y.Finite? {
      SubsetCard(y.scalars, x.scalars);
      if HasView(x.refs) {
        assert exists a | a in x.refs :: a.View?;
        assert |x.refs| > 0;
        if HasView(y.refs) {
          CollapseFixed(y.refs);
          SubsetCard(y.refs, x.refs);
        }
      } else {
        ViewMonotone(y.refs, x.refs);
        SubsetCard(y.refs, x.refs);
      }
    }
  }

  /** Every join that changes a slot raises its rank. */
  lemma SlotJoinRank(x: Value, y: Value, limit: nat)
    requires WellFormed(x) && WellFormed(y)
    ensures SlotJoin(x, y, limit) != x ==> Rank(x, limit) < Rank(SlotJoin(x, y, limit), limit)
  {
    var j := SlotJoin(x, y, limit);
    if j != x && !x.Bottom? && !y.Bottom? {
      JoinUpperBound(x, y, limit);
      if x.Finite? && y.Finite? {
        CanonicalIsCanonical(x.scalars + y.scalars, x.refs + y.refs, limit);
      }
      BelowRank(x, j, limit);
    }
  }

  /** The slot after joining in a sequence of values, and how often it changed on the way. */
  function JoinAll(v: Value, incoming: seq<Value>, limit: nat): Value
    decreases |incoming|
  {
    if incoming == [] then v else JoinAll(SlotJoin(v, incoming[0], limit), incoming[1..], limit)
  }

  function Changes(v: Value, incoming: seq<Value>, limit: nat): nat
    decreases |incoming|
  {
    if incoming == [] then 0
    else
      var next := SlotJoin(v, incoming[0], limit);
      (if next != v then 1 else 0) + Changes(next, incoming[1..], limit)
  }

  /** A slot fed canonical values changes at most 2 * limit + 2 times, however long the run. */
  lemma {:induction false} ChangesBounded(v: Value, incoming: seq<Value>, limit: nat)
    requires IsCanonical(v, limit)
    requires forall i | 0 <= i < |incoming| :: IsCanonical(incoming[i], limit)
    ensures IsCanonical(JoinAll(v, incoming, limit), limit)
    ensures Changes(v, incoming, limit) <= 2 * limit + 3 - (if v.Bottom? then 1 else Rank(v, limit))
    decreases |incoming|
  {
    if incoming != [] {
      var next := SlotJoin(v, incoming[0], limit);
      JoinIsCanonical(v, incoming[0], limit);
      SlotJoinRank(v, incoming[0], limit);
      ChangesBounded(next, incoming[1..], limit);
      if next.Finite? {
        assert |next.scalars| + |next.refs| > 0;
      }
    }
  }

  /** The final slot still covers everything that was ever joined into it. */
  lemma {:induction false} JoinAllCovers(v: Value, incoming: seq<Value>, limit: nat)
    requires WellFormed(v) && forall i | 0 <= i < |incoming| :: WellFormed(incoming[i])
    ensures WellFormed(JoinAll(v, incoming, limit)) && Covers(JoinAll(v, incoming, limit), v, limit)
    ensures forall i | 0 <= i < |incoming| :: Covers(JoinAll(v, incoming, limit), incoming[i], limit)
    decreases |incoming|
  {
    if incoming != [] {
      var next := SlotJoin(v, incoming[0], limit);
      SlotJoinWellFormed(v, incoming[0], limit);
      SlotJoinCovers(v, incoming[0], limit);
      JoinAllCovers(next, incoming[1..], limit);
      var last := JoinAll(v, incoming, limit);
      CoversTransitive(v, next, last, limit);
      CoversTransitive(incoming[0], next, last, limit);
      forall i | 0 <= i < |incoming| ensures Covers(last, incoming[i], limit) {
        if i > 0 { assert incoming[i] == incoming[1..][i - 1]; }
      }
    }
  }
}
