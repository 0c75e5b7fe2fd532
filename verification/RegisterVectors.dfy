/** The register and flag part of a state, joined slot by slot, as a domain for the closure run. */
module RegisterVectors {
  import opened Identities
  import V = Values
  import opened Worklist
  import opened Priorities

  type Vector = seq<V.Value>

  const FLAG_COUNT: nat := 7

  /** The registers, whose stack pointer keeps more alternatives than the others. */
  function RegisterLimits(limit: nat): seq<nat> { seq(V.REGISTER_COUNT, i => if i == V.ESP then V.StackLimit(limit) else limit) }

  function FlagLimits(limit: nat): seq<nat> { seq(FLAG_COUNT, i => limit) }

  /** Registers and flags, then the registers and flags at the last call. */
  function SlotLimits(limit: nat): seq<nat> {
    RegisterLimits(limit) + FlagLimits(limit) + RegisterLimits(limit) + FlagLimits(limit)
  }

  function VectorJoin(x: Vector, y: Vector, limits: seq<nat>): (r: Vector)
    ensures |r| == |x|
  {
    seq(|x|, i requires 0 <= i < |x| => if i < |y| && i < |limits| then V.SlotJoin(x[i], y[i], limits[i]) else x[i])
  }

  predicate VectorValid(x: Vector, limits: seq<nat>) {
    |x| == |limits| && forall i | 0 <= i < |x| :: V.WellFormed(x[i])
  }

  function VectorRank(x: Vector, limits: seq<nat>): nat {
    if x == [] || limits == [] then 0 else V.Rank(x[0], limits[0]) + VectorRank(x[1..], limits[1..])
  }

  function VectorHeight(limits: seq<nat>): nat {
    if limits == [] then 0 else 2 * limits[0] + 3 + VectorHeight(limits[1..])
  }

  function VectorDomain(limits: seq<nat>): Domain<Vector> {
    Domain((x, y) => VectorJoin(x, y, limits), x => VectorValid(x, limits), x => VectorRank(x, limits), VectorHeight(limits))
  }

  lemma {:induction false} RankBounded(x: Vector, limits: seq<nat>)
    ensures VectorRank(x, limits) <= VectorHeight(limits)
  {
    if x != [] && limits != [] { RankBounded(x[1..], limits[1..]); }
  }

  lemma CoversPointwise(x: Vector, y: Vector, limits: seq<nat>)
    requires VectorValid(x, limits) && VectorValid(y, limits)
    ensures Covers(VectorDomain(limits), x, y) <==> forall i | 0 <= i < |x| :: V.Covers(x[i], y[i], limits[i])
  {
    var j := VectorJoin(x, y, limits);
    if forall i | 0 <= i < |x| :: V.Covers(x[i], y[i], limits[i]) {
      assert forall i | 0 <= i < |x| :: j[i] == x[i];
      assert j == x;
    } else {
      var i :| 0 <= i < |x| && !V.Covers(x[i], y[i], limits[i]);
      assert j[i] != x[i];
    }
  }

  lemma {:induction false} RankRises(x: Vector, y: Vector, limits: seq<nat>)
    requires VectorValid(x, limits) && VectorValid(y, limits)
    ensures VectorRank(x, limits) <= VectorRank(VectorJoin(x, y, limits), limits)
    ensures VectorJoin(x, y, limits) != x ==> VectorRank(x, limits) < VectorRank(VectorJoin(x, y, limits), limits)
  {
    if x != [] {
      var j := VectorJoin(x, y, limits);
      RankRises(x[1..], y[1..], limits[1..]);
      assert j[1..] == VectorJoin(x[1..], y[1..], limits[1..]);
      V.SlotJoinRank(x[0], y[0], limits[0]);
      assert x == [x[0]] + x[1..] && j == [j[0]] + j[1..];
    }
  }

  lemma VectorJoinLaw(x: Vector, y: Vector, limits: seq<nat>)
    requires VectorValid(x, limits) && VectorValid(y, limits)
    ensures JoinLaw(VectorDomain(limits), x, y)
  {
    var j := VectorJoin(x, y, limits);
    forall i | 0 <= i < |j| ensures V.WellFormed(j[i]) && V.Covers(j[i], x[i], limits[i]) && V.Covers(j[i], y[i], limits[i]) {
      V.SlotJoinWellFormed(x[i], y[i], limits[i]);
      V.SlotJoinCovers(x[i], y[i], limits[i]);
    }
    CoversPointwise(j, x, limits);
    CoversPointwise(j, y, limits);
    RankRises(x, y, limits);
  }

  lemma VectorTransitive(x: Vector, y: Vector, z: Vector, limits: seq<nat>)
    requires VectorValid(x, limits) && VectorValid(y, limits) && VectorValid(z, limits)
    requires Covers(VectorDomain(limits), z, y) && Covers(VectorDomain(limits), y, x)
    ensures Covers(VectorDomain(limits), z, x)
  {
    CoversPointwise(z, y, limits);
    CoversPointwise(y, x, limits);
    forall i | 0 <= i < |z| ensures V.Covers(z[i], x[i], limits[i]) {
      V.CoversTransitive(x[i], y[i], z[i], limits[i]);
    }
    CoversPointwise(z, x, limits);
  }

  /** The kernel's own values obey every law the worklist needs, although their join is not associative. */
  lemma VectorLaws(limits: seq<nat>)
    ensures DomainLaws(VectorDomain(limits))
  {
    var d := VectorDomain(limits);
    forall x: Vector | d.valid(x) ensures d.rank(x) <= d.height && Covers(d, x, x) {
      RankBounded(x, limits);
      CoversPointwise(x, x, limits);
    }
    forall x: Vector, y: Vector | d.valid(x) && d.valid(y) ensures JoinLaw(d, x, y) {
      VectorJoinLaw(x, y, limits);
    }
    forall x: Vector, y: Vector, z: Vector | d.valid(x) && d.valid(y) && d.valid(z) && Covers(d, z, y) && Covers(d, y, x)
      ensures Covers(d, z, x)
    {
      VectorTransitive(x, y, z, limits);
    }
  }

  lemma {:induction false} HeightSplits(a: seq<nat>, b: seq<nat>)
    ensures VectorHeight(a + b) == VectorHeight(a) + VectorHeight(b)
  {
    if a == [] {
      assert a + b == b;
    } else {
      HeightSplits(a[1..], b);
      assert (a + b)[1..] == a[1..] + b;
    }
  }

  lemma {:induction false} UniformHeight(limit: nat, slots: nat)
    ensures VectorHeight(seq(slots, i => limit)) == slots * (2 * limit + 3)
  {
    if slots > 0 {
      assert seq(slots, i => limit)[1..] == seq(slots - 1, i => limit);
      UniformHeight(limit, slots - 1);
    }
  }

  lemma RegisterHeight(limit: nat)
    ensures VectorHeight(RegisterLimits(limit)) == 7 * (2 * limit + 3) + 2 * V.StackLimit(limit) + 3
  {
    var wide := [V.StackLimit(limit)];
    assert RegisterLimits(limit) == seq(7, i => limit) + wide;
    HeightSplits(seq(7, i => limit), wide);
    UniformHeight(limit, 7);
    assert wide[1..] == [];
  }

  /** The vector of a kernel state: its join obeys the laws of the worklist, only its two stack pointers use the wider
      limit, and it can change at most as often as 28 narrow and two wide slots. */
  lemma KernelVector(limit: nat)
    ensures DomainLaws(VectorDomain(SlotLimits(limit)))
    ensures |SlotLimits(limit)| == 30
    ensures forall i | 0 <= i < 30 :: SlotLimits(limit)[i] == if i == 7 || i == 22 then V.StackLimit(limit) else limit
    ensures VectorHeight(SlotLimits(limit)) == 28 * (2 * limit + 3) + 2 * (2 * V.StackLimit(limit) + 3)
  {
    VectorLaws(SlotLimits(limit));
    var registers, flags := RegisterLimits(limit), FlagLimits(limit);
    RegisterHeight(limit);
    UniformHeight(limit, FLAG_COUNT);
    HeightSplits(registers, flags);
    HeightSplits(registers + flags, registers);
    HeightSplits(registers + flags + registers, flags);
  }
}
