/** What a finished closure run guarantees: coverage of whole concrete runs, the deferred branch
    table. */
module ClosureResults {
  import opened Identities
  import opened Priorities
  import opened Worklist
  import opened ClosureRun

  // ----- safety over whole runs

  /** Covering keeps every concrete state, and so does the boundary. */
  ghost predicate Concretizes<S(!new), C(!new)>(p: Program<S>, gamma: (C, S) -> bool) {
    && (forall c, s | gamma(c, s) :: gamma(c, p.boundary(s)))
    && (forall c, x, y | p.domain.valid(x) && p.domain.valid(y) && Covers(p.domain, x, y) && gamma(c, y) :: gamma(c, x))
  }

  /** One abstract evaluation accounts for one concrete step. */
  ghost predicate Simulated<S(!new), C>(p: Program<S>, v: View<S>, gamma: (C, S) -> bool,
                                        key: WorkKey, c: C, key': WorkKey, c': C)
  {
    key in v.states && gamma(c, v.states[key]) ==>
      exists send :: Emits(OutcomeAt(p, v, key), key, send) && WorkKey(send.target, send.context) == key' && gamma(c', send.state)
  }

  /** No branch successor of a stored key is replaced by another of its target. */
  ghost predicate AllRetained<S(!new)>(p: Program<S>, v: View<S>) {
    forall key, send | key in v.states && Emits(OutcomeAt(p, v, key), key, send) :: Retained(OutcomeAt(p, v, key), key, send)
  }

  /** It is so where successors with one target carry one state. */
  lemma AgreeingAllRetained<S(!new)>(p: Program<S>, v: View<S>)
    requires forall key | key in v.states :: TargetsAgree(OutcomeAt(p, v, key).branches)
    ensures AllRetained(p, v)
  {
    forall key, send | key in v.states && Emits(OutcomeAt(p, v, key), key, send)
      ensures Retained(OutcomeAt(p, v, key), key, send)
    {
      AgreeingRetained(OutcomeAt(p, v, key), key, send);
    }
  }

  /** If each evaluation accounts for its concrete steps, a finished run with nothing reported outside contains
      every concrete run from the roots. */
  lemma RunsStayInside<S(!new), C(!new)>(p: Program<S>, v: View<S>, gamma: (C, S) -> bool,
                                         keys: seq<WorkKey>, concrete: seq<C>)
    requires ProgramLaws(p) && Running(p, v) && Finished(v) && AllRetained(p, v) && v.outside == {}
    requires Concretizes(p, gamma) && 0 < |keys| == |concrete|
    requires keys[0].rva in p.roots && keys[0].rva in p.adjacency && keys[0] == RootKey(keys[0].rva)
    requires gamma(concrete[0], p.initial(keys[0].rva))
    requires forall i | 0 < i < |keys| :: Simulated(p, v, gamma, keys[i - 1], concrete[i - 1], keys[i], concrete[i])
    ensures forall i | 0 <= i < |keys| :: keys[i] in v.states && gamma(concrete[i], v.states[keys[i]])
  {
    forall i | 0 <= i < |keys| ensures keys[i] in v.states && gamma(concrete[i], v.states[keys[i]]) {
      RunInside(p, v, gamma, keys, concrete, i);
    }
  }

  lemma {:induction false} RunInside<S(!new), C(!new)>(p: Program<S>, v: View<S>, gamma: (C, S) -> bool,
                                                       keys: seq<WorkKey>, concrete: seq<C>, i: nat)
    requires ProgramLaws(p) && Running(p, v) && Finished(v) && AllRetained(p, v) && v.outside == {}
    requires Concretizes(p, gamma) && i < |keys| == |concrete|
    requires keys[0].rva in p.roots && keys[0].rva in p.adjacency && keys[0] == RootKey(keys[0].rva)
    requires gamma(concrete[0], p.initial(keys[0].rva))
    requires forall i | 0 < i < |keys| :: Simulated(p, v, gamma, keys[i - 1], concrete[i - 1], keys[i], concrete[i])
    ensures keys[i] in v.states && gamma(concrete[i], v.states[keys[i]])
  {
    if i == 0 {
      RootInside(p, v, keys[0].rva);
    } else {
      RunInside(p, v, gamma, keys, concrete, i - 1);
      StepInside(p, v, gamma, keys[i - 1], concrete[i - 1], keys[i], concrete[i]);
    }
  }

  lemma RootInside<S(!new)>(p: Program<S>, v: View<S>, root: nat)
    requires ProgramLaws(p) && Running(p, v) && root in p.roots && root in p.adjacency
    ensures RootCovered(p, v, root) && p.domain.valid(p.initial(root)) && p.domain.valid(v.states[RootKey(root)])
  {
    var i :| 0 <= i < |p.roots| && p.roots[i] == root;
    assert RootCovered(p, v, p.roots[i]);
  }

  lemma StepInside<S(!new), C(!new)>(p: Program<S>, v: View<S>, gamma: (C, S) -> bool, key: WorkKey, c: C, key': WorkKey, c': C)
    requires ProgramLaws(p) && Running(p, v) && Finished(v) && AllRetained(p, v) && v.outside == {}
    requires Concretizes(p, gamma) && key in v.states && gamma(c, v.states[key]) && Simulated(p, v, gamma, key, c, key', c')
    ensures key' in v.states && gamma(c', v.states[key'])
  {
    var send :| Emits(OutcomeAt(p, v, key), key, send) && WorkKey(send.target, send.context) == key' && gamma(c', send.state);
    LastInside(p, v, gamma, key, send, key', c');
  }

  lemma LastInside<S(!new), C(!new)>(p: Program<S>, v: View<S>, gamma: (C, S) -> bool, key: WorkKey, send: Send<S>,
                                     key': WorkKey, c': C)
    requires ProgramLaws(p) && Running(p, v) && Finished(v) && AllRetained(p, v) && v.outside == {}
    requires Concretizes(p, gamma) && key in v.states && Emits(OutcomeAt(p, v, key), key, send)
    requires WorkKey(send.target, send.context) == key' && gamma(c', send.state)
    ensures key' in v.states && gamma(c', v.states[key'])
  {
    FinishedCovers(p, v, key, send);
    EmittedValid(p, v, key, send);
    assert gamma(c', p.boundary(send.state));
  }

  lemma EmittedValid<S(!new)>(p: Program<S>, v: View<S>, key: WorkKey, send: Send<S>)
    requires ProgramLaws(p) && ValidView(p, v) && key in v.states && Emits(OutcomeAt(p, v, key), key, send)
    ensures p.domain.valid(send.state) && p.domain.valid(p.boundary(send.state))
  {
    OutcomeValid(p, v, key);
  }

  // ----- two successors with one target

  ghost predicate KnownEdge<S>(v: View<S>, key: WorkKey, target: nat) { Edge(key.rva, target, DirectControl) in v.edges }

  ghost predicate SameTarget<S>(v: View<S>, v': View<S>, key: WorkKey, target: nat) {
    var there := WorkKey(target, key.context);
    && (there in v.states <==> there in v'.states) && (there in v.states ==> v.states[there] == v'.states[there])
    && (Edge(key.rva, target, DirectControl) in v.outside <==> Edge(key.rva, target, DirectControl) in v'.outside)
  }

  /** A branch adds no edge of its own, and what it knows nothing about it leaves alone until the table is drained. */
  lemma {:induction false} UnknownTargetsWait<S(!new)>(p: Program<S>, v: View<S>, key: WorkKey, branches: seq<Branch<S>>)
    ensures BranchedAll(p, v, key, branches).edges == v.edges
    ensures forall target: nat | !KnownEdge(v, key, target) :: SameTarget(v, BranchedAll(p, v, key, branches), key, target)
    ensures forall i: nat | i < |branches| && LastOfTarget(branches, i) && !KnownEdge(v, key, branches[i].target)
              :: StillDeferred(BranchedAll(p, v, key, branches), key, branches[i])
  {
    if branches != [] {
      var rest, last := branches[..|branches| - 1], branches[|branches| - 1];
      UnknownTargetsWait(p, v, key, rest);
      var mid := BranchedAll(p, v, key, rest);
      BranchedOnce(p, mid, key, last);
      var v' := Branched(p, mid, key, last);
      forall target: nat | !KnownEdge(v, key, target) ensures SameTarget(v, v', key, target) {
        OthersAlone(p, mid, key, last, target);
        assert SameTarget(v, mid, key, target) && SameTarget(mid, v', key, target);
      }
      forall i: nat | i < |branches| && LastOfTarget(branches, i) && !KnownEdge(v, key, branches[i].target)
        ensures StillDeferred(v', key, branches[i])
      {
        if i < |rest| { assert LastOfTarget(rest, i) && branches[|rest|] == last; }
      }
    }
  }

  lemma BranchedOnce<S(!new)>(p: Program<S>, v: View<S>, key: WorkKey, branch: Branch<S>)
    ensures Branched(p, v, key, branch).edges == v.edges
    ensures !KnownEdge(v, key, branch.target) ==> StillDeferred(Branched(p, v, key, branch), key, branch)
    ensures forall other: Branch<S> | other.target != branch.target && StillDeferred(v, key, other)
              :: StillDeferred(Branched(p, v, key, branch), key, other)
  {
  }

  lemma OthersAlone<S(!new)>(p: Program<S>, v: View<S>, key: WorkKey, branch: Branch<S>, target: nat)
    requires !KnownEdge(v, key, target)
    ensures SameTarget(v, Branched(p, v, key, branch), key, target)
  {
  }

  lemma {:induction false} KnownTargetsDelivered<S(!new)>(p: Program<S>, v: View<S>, key: WorkKey, branches: seq<Branch<S>>, i: nat)
    requires ProgramLaws(p) && ValidView(p, v) && key in v.states && i < |branches|
    requires forall j | 0 <= j < |branches| :: p.domain.valid(branches[j].state)
    requires KnownEdge(v, key, branches[i].target)
    ensures Delivered(p, BranchedAll(p, v, key, branches), key.rva, BranchSend(key, branches[i]))
  {
    var rest, last := branches[..|branches| - 1], branches[|branches| - 1];
    BranchedAllValid(p, v, key, rest);
    if i < |rest| {
      KnownTargetsDelivered(p, v, key, rest, i);
      DeliveredBeyond(p, BranchedAll(p, v, key, rest), key, branches[i], last);
    } else {
      UnknownTargetsWait(p, v, key, rest);
      KnownDelivered(p, BranchedAll(p, v, key, rest), key, last);
    }
  }

  lemma DeliveredBeyond<S(!new)>(p: Program<S>, v: View<S>, key: WorkKey, held: Branch<S>, branch: Branch<S>)
    requires ProgramLaws(p) && ValidView(p, v) && key in v.states && p.domain.valid(held.state) && p.domain.valid(branch.state)
    requires Delivered(p, v, key.rva, BranchSend(key, held))
    ensures Delivered(p, Branched(p, v, key, branch), key.rva, BranchSend(key, held))
  {
    BranchedGrows(p, v, key, branch);
    DeliveredKept(p, key, v, Branched(p, v, key, branch), key.rva, BranchSend(key, held));
  }

  lemma KnownDelivered<S(!new)>(p: Program<S>, v: View<S>, key: WorkKey, branch: Branch<S>)
    requires ProgramLaws(p) && ValidView(p, v) && key in v.states && p.domain.valid(branch.state)
    requires KnownEdge(v, key, branch.target)
    ensures Delivered(p, Branched(p, v, key, branch), key.rva, BranchSend(key, branch))
  {
    assert key in Universe(p);
    EnqueuedGrows(p, key, v, key.rva, BranchSend(key, branch));
  }

  /** Successor i of a branch waits under a new edge that a later successor j claims for another state, and its target
      does not cover it already. */
  ghost predicate Superseded<S>(p: Program<S>, v: View<S>, key: WorkKey, branches: seq<Branch<S>>, i: nat, j: nat) {
    && i < j < |branches| && LastOfTarget(branches, j)
    && branches[i].target == branches[j].target && branches[i].state != branches[j].state
    && !KnownEdge(v, key, branches[i].target)
    && !Delivered(p, v, key.rva, BranchSend(key, branches[i]))
  }

  /** The table of deferred edges is keyed by source and target only, so a branch loses a successor exactly when another
      one supersedes it. */
  lemma DeferredSuccessorsExactly<S(!new)>(p: Program<S>, v: View<S>, key: WorkKey, branches: seq<Branch<S>>)
    requires ProgramLaws(p) && ValidView(p, v) && key in v.states
    requires forall i | 0 <= i < |branches| :: p.domain.valid(branches[i].state)
    ensures (forall i | 0 <= i < |branches| :: BranchHeld(p, BranchedAll(p, v, key, branches), key, branches[i]))
        <==> forall i: nat, j: nat :: !Superseded(p, v, key, branches, i, j)
  {
    forall i: nat | i < |branches|
      ensures BranchHeld(p, BranchedAll(p, v, key, branches), key, branches[i])
          <==> forall j: nat :: !Superseded(p, v, key, branches, i, j)
    {
      SuccessorHeldExactly(p, v, key, branches, i);
    }
  }

  lemma SuccessorHeldExactly<S(!new)>(p: Program<S>, v: View<S>, key: WorkKey, branches: seq<Branch<S>>, i: nat)
    requires ProgramLaws(p) && ValidView(p, v) && key in v.states && i < |branches|
    requires forall j | 0 <= j < |branches| :: p.domain.valid(branches[j].state)
    ensures BranchHeld(p, BranchedAll(p, v, key, branches), key, branches[i])
        <==> forall j: nat :: !Superseded(p, v, key, branches, i, j)
  {
    if KnownEdge(v, key, branches[i].target) {
      KnownTargetsDelivered(p, v, key, branches, i);
    } else {
      UnknownTargetsWait(p, v, key, branches);
      var last := FindLast(branches, i);
      assert SameTarget(v, BranchedAll(p, v, key, branches), key, branches[i].target);
      assert StillDeferred(BranchedAll(p, v, key, branches), key, branches[last]);
      assert last == i || i < last;
      forall j: nat | Superseded(p, v, key, branches, i, j) ensures j == last { }
      if last != i && branches[i].state != branches[last].state && !Delivered(p, v, key.rva, BranchSend(key, branches[i])) {
        assert Superseded(p, v, key, branches, i, last);
      }
    }
  }

  function Max(x: nat, y: nat): nat { if x < y then y else x }

  function Clipped(x: nat): nat { if x <= 2 then x else 0 }

  function ForkOutcome(rva: nat): Outcome<nat> {
    Outcome([], {}, {}, if rva == 0 then [Branch(1, 2), Branch(1, 1)] else [], None)
  }

  /** States 0, 1, 2 under their maximum: transfer 0 branches to transfer 1 both ways, with states 2 and 1. */
  function EqualTargets(): Program<nat> {
    Program(Domain((x: nat, y: nat) => Max(x, y), (x: nat) => x <= 2, (x: nat) => Clipped(x), 2),
            map[0 := {1}, 1 := {}], {0}, {RootContext(0)}, [0], (root: nat) => 0,
            (key: WorkKey, s: nat) => {},
            (key: WorkKey, s: nat, m: map<Context, nat>) => ForkOutcome(key.rva),
            (s: nat) => s, (s: nat) => s)
  }

  lemma MaxLaws()
    ensures DomainLaws(EqualTargets().domain)
  {
    var d := EqualTargets().domain;
    assert forall x, y | d.valid(x) && d.valid(y) :: JoinLaw(d, x, y);
  }

  lemma ForkValid(key: WorkKey)
    ensures ValidOutcome(EqualTargets(), key, ForkOutcome(key.rva))
  {
  }

  lemma EqualTargetsLawful()
    ensures ProgramLaws(EqualTargets())
  {
    var p := EqualTargets();
    MaxLaws();
    forall key: WorkKey, s: nat, m: map<Context, nat> ensures ValidOutcome(p, key, p.outcome(key, s, m)) { ForkValid(key); }
  }

  function Next(): WorkKey { WorkKey(1, RootContext(0)) }

  function AfterFork(): View<nat> { View(map[RootKey(0) := 0], {}, map[], map[], {}, map[(RootKey(0), 1) := 1], {}) }

  function AfterDrain(): View<nat> {
    View(map[RootKey(0) := 0, Next() := 1], {Next()}, map[], map[], {Edge(0, 1, DirectControl)}, map[], {})
  }

  lemma ForkStep()
    ensures SeededAll(EqualTargets(), 1) == View(map[RootKey(0) := 0], {RootKey(0)}, map[], map[], {}, map[], {})
    ensures Evaluated(EqualTargets(), Popped(SeededAll(EqualTargets(), 1), RootKey(0)), RootKey(0)) == AfterFork()
  {
    var p, v := EqualTargets(), Popped(SeededAll(EqualTargets(), 1), RootKey(0));
    assert SeededAll(p, 1) == Seeded(p, SeededAll(p, 0), 0);
    assert v.queued == {};
    assert Subscribed(p, v, RootKey(0)).dependents == map[];
    assert WithoutDeferred(v, RootKey(0)).deferred == map[];
    ForkTable(p, v);
  }

  lemma ForkTable(p: Program<nat>, v: View<nat>)
    requires v.edges == {}
    ensures BranchedAll(p, v, RootKey(0), [Branch(1, 2), Branch(1, 1)]) == v.(deferred := v.deferred[(RootKey(0), 1) := 1])
  {
    var false_, true_ := Branch(1, 2 as nat), Branch(1, 1 as nat);
    var mid := v.(deferred := v.deferred[(RootKey(0), 1) := 2]);
    assert [false_, true_][..1] == [false_];
    assert BranchedAll(p, v, RootKey(0), [false_]) == mid by {
      assert [false_][..0] == [];
    }
    assert mid.deferred[(RootKey(0), 1) := 1] == v.deferred[(RootKey(0), 1) := 1];
  }

  lemma DrainStep()
    ensures Drained(EqualTargets(), AfterFork(), (RootKey(0), 1)) == AfterDrain()
  {
  }

  lemma LastStep()
    ensures Evaluated(EqualTargets(), Popped(AfterDrain(), Next()), Next()) == Popped(AfterDrain(), Next())
  {
    assert Subscribed(EqualTargets(), Popped(AfterDrain(), Next()), Next()).dependents == map[];
  }

  /** The run of that program finishes without a blocker, and the successor with state 2 is lost. */
  lemma EqualTargetsLoseASuccessor()
    ensures var p, final := EqualTargets(), Popped(AfterDrain(), Next());
            && Evaluated(p, Popped(SeededAll(p, 1), RootKey(0)), RootKey(0)) == AfterFork()
            && Drained(p, AfterFork(), (RootKey(0), 1)) == AfterDrain()
            && Evaluated(p, final, Next()) == final && Finished(final) && final.outside == {}
            && Emits(OutcomeAt(p, final, RootKey(0)), RootKey(0), BranchSend(RootKey(0), Branch(1, 2)))
            && !Delivered(p, final, 0, BranchSend(RootKey(0), Branch(1, 2)))
  {
    ForkStep();
    DrainStep();
    LastStep();
    assert ForkOutcome(0).branches[0] == Branch(1, 2);
  }
}
