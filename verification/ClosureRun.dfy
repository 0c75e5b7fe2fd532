/** The closure loop itself: seeding, stepping, draining and stopping. */
module ClosureRun {
  import opened Identities
  import opened Sets
  import opened Priorities
  import opened Worklist
  import opened ClosureEdges

  // ----- seeding

  function RootKey(root: nat): WorkKey { WorkKey(root, RootContext(root)) }

  function Seeded<S>(p: Program<S>, v: View<S>, root: nat): View<S> {
    if root in p.adjacency then
      v.(states := v.states[RootKey(root) := p.initial(root)], queued := v.queued + {RootKey(root)})
    else v
  }

  function EmptyView<S>(): View<S> { View(map[], {}, map[], map[], {}, map[], {}) }

  /** Steps that always suffice: every slot of every key and summary rises at most `height` times. */
  function StepBound<S>(p: Program<S>): nat {
    |Universe(p)| * (p.domain.height + 1) * (1 + |p.contexts|)
  }

  ghost function Grid<K>(keys: set<K>, ranks: set<nat>): set<(K, nat)> { set k, r | k in keys && r in ranks :: (k, r) }

  lemma {:induction false} GridCard<K>(keys: set<K>, ranks: set<nat>)
    ensures |Grid(keys, ranks)| == |keys| * |ranks|
  {
    if keys == {} {
      assert Grid(keys, ranks) == {};
    } else {
      var k :| k in keys;
      GridCard(keys - {k}, ranks);
      GridRow(keys, ranks, k);
    }
  }

  lemma GridRow<K>(keys: set<K>, ranks: set<nat>, k: K)
    requires k in keys
    ensures |Grid(keys, ranks)| == |Grid(keys - {k}, ranks)| + |ranks|
    ensures |keys| == |keys - {k}| + 1
  {
    RowCard(k, ranks);
    assert Grid(keys, ranks) == Grid(keys - {k}, ranks) + TokenRow(k, ranks);
    assert Grid(keys - {k}, ranks) !! TokenRow(k, ranks);
    assert keys == (keys - {k}) + {k};
  }

  ghost function TokenRow<K>(k: K, ranks: set<nat>): set<(K, nat)> { set r | r in ranks :: (k, r) }

  lemma {:induction false} RowCard<K>(k: K, ranks: set<nat>)
    ensures |TokenRow(k, ranks)| == |ranks|
  {
    if ranks != {} {
      var r :| r in ranks;
      RowCard(k, ranks - {r});
      assert TokenRow(k, ranks) == TokenRow(k, ranks - {r}) + {(k, r)};
    }
  }

  lemma TokensEmpty<K, S>(d: Domain<S>, keys: set<K>)
    ensures |Tokens(d, keys, map[])| == |keys| * (d.height + 1)
  {
    GridCard(keys, Ranks(d.height));
    assert Tokens(d, keys, map[]) == Grid(keys, Ranks(d.height));
  }

  lemma EmptyCost<S>(p: Program<S>)
    ensures Cost(p, EmptyView<S>()) == StepBound(p)
  {
    TokensEmpty<WorkKey, S>(p.domain, Universe(p));
    TokensEmpty<Context, S>(p.domain, p.contexts);
    TimesIsProduct(|p.contexts| * (p.domain.height + 1), |Universe(p)|);
    Distributed(|Universe(p)|, p.domain.height + 1, |p.contexts|);
  }

  lemma {:induction false} TimesIsProduct(n: nat, weight: nat)
    ensures Times(n, weight) == n * weight
  {
    if n > 0 { TimesIsProduct(n - 1, weight); }
  }

  lemma Distributed(u: nat, h: nat, c: nat)
    ensures u * h + u * (c * h) == u * h * (1 + c)
  {
  }

  /** Only roots are stored yet, all of them queued on their initial states. */
  ghost predicate Seeding<S>(p: Program<S>, v: View<S>, done: set<nat>) {
    && v.summaries == map[] && v.dependents == map[] && v.deferred == map[]
    && v.queued == v.states.Keys
    && (forall k | k in v.states :: k == RootKey(k.rva) && v.states[k] == p.initial(k.rva))
    && (forall root {:trigger RootKey(root)} | root in done && root in p.adjacency :: RootKey(root) in v.states)
  }

  lemma SeededKeeps<S(!new)>(p: Program<S>, v: View<S>, root: nat, done: set<nat>)
    requires DomainLaws(p.domain) && ValidView(p, v) && Seeding(p, v, done)
    requires RootContext(root) in p.contexts && p.domain.valid(p.initial(root))
    ensures ValidView(p, Seeded(p, v, root)) && Seeding(p, Seeded(p, v, root), done + {root})
    ensures Cost(p, Seeded(p, v, root)) <= Cost(p, v)
  {
    if root in p.adjacency {
      assert RootKey(root) in Universe(p);
      SeededCost(p, v, root);
      SeededValid(p, v, root, done);
    }
  }

  lemma SeededValid<S>(p: Program<S>, v: View<S>, root: nat, done: set<nat>)
    requires ValidView(p, v) && Seeding(p, v, done)
    requires root in p.adjacency && RootKey(root) in Universe(p) && p.domain.valid(p.initial(root))
    ensures ValidView(p, Seeded(p, v, root)) && Seeding(p, Seeded(p, v, root), done + {root})
  {
    var v' := Seeded(p, v, root);
    forall k | k in v'.states ensures k in Universe(p) && p.domain.valid(v'.states[k]) {
      if k != RootKey(root) { assert k in v.states; }
    }
  }

  lemma SeededCost<S(!new)>(p: Program<S>, v: View<S>, root: nat)
    requires root in p.adjacency && RootKey(root) in Universe(p)
    requires p.domain.rank(p.initial(root)) <= p.domain.height
    requires RootKey(root) in v.states ==> v.states[RootKey(root)] == p.initial(root) && RootKey(root) in v.queued
    ensures Cost(p, Seeded(p, v, root)) <= Cost(p, v)
  {
    var key, v' := RootKey(root), Seeded(p, v, root);
    if key in v.states {
      assert v'.states == v.states && v'.queued == v.queued;
    } else {
      TokensInsert(p.domain, Universe(p), v.states, key, p.initial(root));
      UnionCard(v.queued, {key});
    }
  }

  ghost predicate RootsCovered<S>(p: Program<S>, v: View<S>) {
    forall i | 0 <= i < |p.roots| && p.roots[i] in p.adjacency :: RootCovered(p, v, p.roots[i])
  }

  ghost predicate RootCovered<S>(p: Program<S>, v: View<S>, root: nat) {
    RootKey(root) in v.states && Covers(p.domain, v.states[RootKey(root)], p.initial(root))
  }

  lemma RootsKept<S(!new)>(p: Program<S>, current: WorkKey, v: View<S>, v': View<S>)
    requires ProgramLaws(p) && Grows(p, current, v, v') && RootsCovered(p, v)
    ensures RootsCovered(p, v')
  {
    forall i | 0 <= i < |p.roots| && p.roots[i] in p.adjacency ensures RootCovered(p, v', p.roots[i]) {
      assert RootCovered(p, v, p.roots[i]);
    }
  }

  /** What holds between any two steps of a run. */
  ghost predicate Running<S(!new)>(p: Program<S>, v: View<S>) {
    Invariant(p, v, {}) && EdgeInvariant(p, v, {}) && RootsCovered(p, v)
  }

  function RootsBefore(roots: seq<nat>, i: nat): (done: set<nat>)
    requires i <= |roots|
    ensures forall j | 0 <= j < i :: roots[j] in done
  {
    if i == 0 then {} else RootsBefore(roots, i - 1) + {roots[i - 1]}
  }

  function SeededAll<S>(p: Program<S>, i: nat): View<S>
    requires i <= |p.roots|
  {
    if i == 0 then EmptyView() else Seeded(p, SeededAll(p, i - 1), p.roots[i - 1])
  }

  function Missing<S>(p: Program<S>, i: nat): set<nat>
    requires i <= |p.roots|
  {
    if i == 0 then {} else Missing(p, i - 1) + ({p.roots[i - 1]} - p.adjacency.Keys)
  }

  /** Exactly the roots outside the universe are reported. */
  lemma {:induction false} MissingExactly<S>(p: Program<S>, i: nat, root: nat)
    requires i <= |p.roots|
    ensures root in Missing(p, i) <==> root in p.roots[..i] && root !in p.adjacency
  {
    if i > 0 {
      MissingExactly(p, i - 1, root);
      assert p.roots[..i] == p.roots[..i - 1] + [p.roots[i - 1]];
    }
  }

  lemma {:induction false} SeededAllSeeds<S(!new)>(p: Program<S>, i: nat)
    requires ProgramLaws(p) && i <= |p.roots|
    ensures ValidView(p, SeededAll(p, i)) && Seeding(p, SeededAll(p, i), RootsBefore(p.roots, i))
  {
    if i > 0 {
      SeededAllSeeds(p, i - 1);
      SeededKeeps(p, SeededAll(p, i - 1), p.roots[i - 1], RootsBefore(p.roots, i - 1));
    }
  }

  lemma {:induction false} SeededAllEdges<S(!new)>(p: Program<S>, i: nat)
    requires i <= |p.roots|
    ensures SeededAll(p, i).edges == {} && SeededAll(p, i).outside == {}
  {
    if i > 0 { SeededAllEdges(p, i - 1); }
  }

  lemma {:induction false} SeededAllCost<S(!new)>(p: Program<S>, i: nat)
    requires ProgramLaws(p) && i <= |p.roots|
    ensures Cost(p, SeededAll(p, i)) <= Cost(p, EmptyView<S>())
  {
    if i > 0 {
      SeededAllCost(p, i - 1);
      SeededAllSeeds(p, i - 1);
      SeededKeeps(p, SeededAll(p, i - 1), p.roots[i - 1], RootsBefore(p.roots, i - 1));
    }
  }

  lemma SeededAllRuns<S(!new)>(p: Program<S>)
    requires ProgramLaws(p)
    ensures Running(p, SeededAll(p, |p.roots|)) && Cost(p, SeededAll(p, |p.roots|)) <= StepBound(p)
  {
    EmptyCost(p);
    SeededAllSeeds(p, |p.roots|);
    SeededAllCost(p, |p.roots|);
    SeededAllEdges(p, |p.roots|);
  }

  // ----- stepping

  ghost function Popped<S>(v: View<S>, key: WorkKey): View<S> { v.(queued := v.queued - {key}) }

  lemma StepKeeps<S(!new)>(p: Program<S>, v: View<S>, key: WorkKey)
    requires ProgramLaws(p) && Running(p, v) && key in v.queued
    ensures Running(p, Evaluated(p, Popped(v, key), key))
    ensures Cost(p, Evaluated(p, Popped(v, key), key)) < Cost(p, v)
  {
    var popped := Popped(v, key);
    assert Cost(p, popped) == Cost(p, v) - 1;
    forall k | k in popped.states && k !in popped.queued && k != key ensures Settled(p, popped, k) {
      assert Settled(p, v, k);
      PoppedSettled(p, v, key, k);
    }
    assert RootsCovered(p, popped) by {
      forall i | 0 <= i < |p.roots| && p.roots[i] in p.adjacency ensures RootCovered(p, popped, p.roots[i]) {
        assert RootCovered(p, v, p.roots[i]);
      }
    }
    EvaluatedKeeps(p, popped, key);
    PoppedEdges(p, v, key);
    EvaluatedKeepsEdges(p, popped, key);
    RootsKept(p, key, popped, Evaluated(p, popped, key));
  }

  lemma PoppedSettled<S>(p: Program<S>, v: View<S>, key: WorkKey, k: WorkKey)
    requires k in v.states && Settled(p, v, k)
    ensures Settled(p, Popped(v, key), k)
  {
    var v', o := Popped(v, key), OutcomeAt(p, v, k);
    assert Seen(p, v', k, v.states[k]) == Seen(p, v, k, v.states[k]);
    forall i | 0 <= i < |o.sends| ensures Delivered(p, v', k.rva, o.sends[i]) { assert Delivered(p, v, k.rva, o.sends[i]); }
    forall i: nat | i < |o.branches| && LastOfTarget(o.branches, i) ensures BranchHeld(p, v', k, o.branches[i]) {
      assert BranchHeld(p, v, k, o.branches[i]);
    }
    forall c | c in o.registers + p.consults(k, v.states[k]) ensures k in Dependents(v', c) { assert k in Dependents(v, c); }
  }

  lemma PoppedEdges<S(!new)>(p: Program<S>, v: View<S>, key: WorkKey)
    requires EdgeInvariant(p, v, {})
    ensures EdgeInvariant(p, Popped(v, key), {key})
  {
    var v' := Popped(v, key);
    forall e | Emitted(p, v, e) ensures Emitted(p, v', e) {
      var k, s, m :| Emission(p, v, e, k, s, m);
      assert Emission(p, v', e, k, s, m);
    }
    forall k | k in v'.states && k !in v'.queued && k != key ensures OutcomeRecorded(p, v', k) { PoppedRecorded(p, v, key, k); }
  }

  lemma PoppedRecorded<S>(p: Program<S>, v: View<S>, key: WorkKey, k: WorkKey)
    requires k in v.states && OutcomeRecorded(p, v, k)
    ensures OutcomeRecorded(p, Popped(v, key), k)
  {
    var v', o := Popped(v, key), OutcomeAt(p, v, k);
    assert Seen(p, v', k, v.states[k]) == Seen(p, v, k, v.states[k]);
    forall i | 0 <= i < |o.branches| ensures BranchRecorded(p, v', k, o.branches[i]) {
      assert BranchRecorded(p, v, k, o.branches[i]);
    }
  }

  lemma PoppedKnown<S(!new)>(p: Program<S>, v: View<S>, key: WorkKey)
    requires ProgramLaws(p) && ValidView(p, v) && key in v.queued
    ensures (var popped := Popped(v, key);
             forall k | k in Dependents(BranchedOut(p, popped, key), key.context) :: k.rva in p.adjacency)
  {
    DependentsKnown(p, Popped(v, key), key);
  }

  lemma DrainedRuns<S(!new)>(p: Program<S>, v: View<S>, edge: (WorkKey, nat))
    requires ProgramLaws(p) && Running(p, v) && edge in v.deferred
    ensures Running(p, Drained(p, v, edge)) && Cost(p, Drained(p, v, edge)) <= Cost(p, v)
    ensures |Drained(p, v, edge).deferred| < |v.deferred|
  {
    DrainedKeeps(p, v, edge);
    DrainedKeepsEdges(p, v, edge);
    RootsKept(p, edge.0, v, Drained(p, v, edge));
    DrainedOnce(p, v, edge);
  }

  lemma DrainedOnce<S>(p: Program<S>, v: View<S>, edge: (WorkKey, nat))
    requires edge in v.deferred
    ensures |Drained(p, v, edge).deferred| < |v.deferred|
  {
    assert Drained(p, v, edge).deferred == v.deferred - {edge};
    FewerDeferred(v.deferred, edge);
  }

  class Closure<S(==,!new)> {
    const program: Program<S>
    const pending: NativePending
    var states: map<WorkKey, S>
    var summaries: map<Context, S>
    var dependents: map<Context, set<WorkKey>>
    var edges: set<Edge>
    var deferred: map<(WorkKey, nat), S>
    var outside: set<Edge>
    var missingRoots: set<nat>

    ghost function Snapshot(): View<S>
      reads this, pending
    {
      View(states, pending.queued, summaries, dependents, edges, deferred, outside)
    }

    ghost predicate Valid()
      reads this, pending
    {
      pending.Valid() && pending.staticAdjacency == program.adjacency
    }

    constructor (program: Program<S>)
      requires ClosedGraph(program.adjacency)
      ensures this.program == program && fresh(pending)
      ensures Valid() && Snapshot() == EmptyView() && missingRoots == {}
    {
      this.program := program;
      pending := new NativePending(program.roots, program.adjacency);
      states, summaries, dependents, edges, deferred, outside, missingRoots := map[], map[], map[], {}, map[], {}, {};
    }

    method Enqueue(source: nat, send: Send<S>)
      requires Valid()
      modifies this`states, this`edges, this`outside, pending
      ensures Valid() && Snapshot() == Enqueued(program, old(Snapshot()), source, send)
    {
      var edge := Edge(source, send.target, send.kind);
      if send.target !in program.adjacency {
        outside := outside + {edge};
        return;
      }
      edges := edges + {edge};
      var key := WorkKey(send.target, send.context);
      var incoming := program.boundary(send.state);
      var joined := if key in states then program.domain.join(states[key], incoming) else incoming;
      if key !in states || states[key] != joined {
        states := states[key := joined];
        pending.Queue(key);
      }
    }

    method UpdateSummary(context: Context, state: S)
      requires Valid() && forall key | key in Dependents(Snapshot(), context) :: key.rva in program.adjacency
      modifies this`summaries, pending
      ensures Valid() && Snapshot() == Summarized(program, old(Snapshot()), context, state)
    {
      var summary := program.effectSummary(state);
      var joined := if context in summaries then program.domain.join(summaries[context], summary) else summary;
      if context in summaries && summaries[context] == joined { return; }
      summaries := summaries[context := joined];
      if context in dependents {
        pending.QueueAll(dependents[context]);
      }
    }

    method SendEach(source: nat, sends: seq<Send<S>>)
      requires Valid()
      modifies this`states, this`edges, this`outside, pending
      ensures Valid() && Snapshot() == SentAll(program, old(Snapshot()), source, sends)
    {
      ghost var v := Snapshot();
      for i := 0 to |sends|
        invariant Valid() && Snapshot() == SentAll(program, v, source, sends[..i])
      {
        assert sends[..i + 1][..i] == sends[..i];
        Enqueue(source, sends[i]);
      }
      assert sends[..|sends|] == sends;
    }

    method BranchEach(key: WorkKey, branches: seq<Branch<S>>)
      requires Valid()
      modifies this`states, this`edges, this`outside, this`deferred, pending
      ensures Valid() && Snapshot() == BranchedAll(program, old(Snapshot()), key, branches)
    {
      ghost var v := Snapshot();
      for i := 0 to |branches|
        invariant Valid() && Snapshot() == BranchedAll(program, v, key, branches[..i])
      {
        assert branches[..i + 1][..i] == branches[..i];
        var branch := branches[i];
        if Edge(key.rva, branch.target, DirectControl) in edges {
          Enqueue(key.rva, BranchSend(key, branch));
        } else {
          deferred := deferred[(key, branch.target) := branch.state];
        }
      }
      assert branches[..|branches|] == branches;
    }

    /** Evaluates one stored key on its state and on the summaries there are. */
    method Evaluate(key: WorkKey)
      requires Valid() && key in states
      requires forall k | k in Dependents(BranchedOut(program, Snapshot(), key), key.context) :: k.rva in program.adjacency
      modifies this`states, this`summaries, this`dependents, this`edges, this`deferred, this`outside, pending
      ensures Valid() && Snapshot() == Evaluated(program, old(Snapshot()), key)
    {
      ghost var v := Snapshot();
      var s := states[key];
      var o := program.outcome(key, s, map c | c in program.consults(key, s) && c in summaries :: summaries[c]);
      assert o == OutcomeAt(program, v, key);
      Subscribe(key, o.registers + program.consults(key, s));
      pending.Discover(key.rva, o.discovered);
      SendEach(key.rva, o.sends);
      assert Snapshot() == SentOut(program, v, key);
      if key.rva in program.branching {
        ForgetDeferred(key);
      }
      BranchEach(key, o.branches);
      assert Snapshot() == BranchedOut(program, v, key);
      if o.summary.Some? {
        UpdateSummary(key.context, o.summary.value);
      }
    }

    /** Takes one key off the queue and evaluates it. */
    method Step() returns (key: WorkKey)
      requires Valid() && ProgramLaws(program) && ValidView(program, Snapshot()) && pending.queued != {}
      modifies this`states, this`summaries, this`dependents, this`edges, this`deferred, this`outside, pending
      ensures Valid() && key in old(pending.queued)
      ensures Snapshot() == Evaluated(program, Popped(old(Snapshot()), key), key)
    {
      ghost var before := Snapshot();
      var popped := pending.Pop();
      key := popped.value;
      assert Snapshot() == Popped(before, key);
      PoppedKnown(program, before, key);
      Evaluate(key);
    }

    method Subscribe(key: WorkKey, contexts: set<Context>)
      modifies this`dependents
      ensures Snapshot() == Registered(old(Snapshot()), key, contexts)
    {
      ghost var v := Snapshot();
      dependents := map c | c in dependents.Keys + contexts
        :: if c in contexts then (if c in dependents then dependents[c] else {}) + {key} else dependents[c];
      assert dependents == Registered(v, key, contexts).dependents;
    }

    method ForgetDeferred(key: WorkKey)
      modifies this`deferred
      ensures Snapshot() == WithoutDeferred(old(Snapshot()), key)
    {
      deferred := map e | e in deferred && e.0 != key :: deferred[e];
    }

    method FlushOne(edge: (WorkKey, nat))
      requires Valid() && edge in deferred
      modifies this`states, this`edges, this`deferred, this`outside, pending
      ensures Valid() && Snapshot() == Drained(program, old(Snapshot()), edge)
    {
      Enqueue(edge.0.rva, BranchSend(edge.0, Branch(edge.1, deferred[edge])));
      deferred := deferred - {edge};
    }

    /** Enqueues every branch successor whose edge was new when it was found. */
    method FlushDeferred()
      requires Valid() && ProgramLaws(program) && Running(program, Snapshot())
      modifies this`states, this`edges, this`deferred, this`outside, pending
      ensures Valid() && Running(program, Snapshot()) && deferred == map[]
      ensures Cost(program, Snapshot()) <= old(Cost(program, Snapshot()))
    {
      ghost var budget := Cost(program, Snapshot());
      while deferred != map[]
        invariant Valid() && Running(program, Snapshot()) && Cost(program, Snapshot()) <= budget
        decreases |deferred|
      {
        var edge: (WorkKey, nat) :| edge in deferred.Keys;
        DrainedRuns(program, Snapshot(), edge);
        FlushOne(edge);
      }
    }

    method SeedOne(root: nat)
      requires Valid()
      modifies this`states, this`missingRoots, pending
      ensures Valid() && Snapshot() == Seeded(program, old(Snapshot()), root)
      ensures missingRoots == old(missingRoots) + ({root} - program.adjacency.Keys)
    {
      if root !in program.adjacency {
        missingRoots := missingRoots + {root};
      } else {
        states := states[RootKey(root) := program.initial(root)];
        pending.Queue(RootKey(root));
      }
    }

    method SeedRoots()
      requires Valid() && Snapshot() == EmptyView() && missingRoots == {}
      modifies this`states, this`missingRoots, pending
      ensures Valid() && Snapshot() == SeededAll(program, |program.roots|) && missingRoots == Missing(program, |program.roots|)
    {
      for i := 0 to |program.roots|
        invariant Valid() && Snapshot() == SeededAll(program, i) && missingRoots == Missing(program, i)
      {
        SeedOne(program.roots[i]);
      }
    }

    /** The loop after seeding: it ends by itself or on the step budget, and past the bound never on the budget. */
    method Drive(maximumSteps: nat) returns (steps: nat, exceeded: bool)
      requires Valid() && ProgramLaws(program) && Running(program, Snapshot())
      modifies this`states, this`summaries, this`dependents, this`edges, this`deferred, this`outside, pending
      ensures Valid() && Running(program, Snapshot())
      ensures exceeded <==> !Finished(Snapshot())
      ensures exceeded ==> steps == maximumSteps
      ensures maximumSteps > old(Cost(program, Snapshot())) ==> !exceeded
      ensures steps <= maximumSteps && steps <= old(Cost(program, Snapshot()))
    {
      ghost var budget := Cost(program, Snapshot());
      steps := 0;
      while steps < maximumSteps
        invariant Valid() && Running(program, Snapshot()) && steps <= maximumSteps
        invariant steps + Cost(program, Snapshot()) <= budget
      {
        if pending.queued == {} {
          if deferred == map[] { break; }
          FlushDeferred();
          if pending.queued == {} { break; }
        }
        ghost var v := Snapshot();
        var key := Step();
        StepKeeps(program, v, key);
        steps := steps + 1;
      }
      exceeded := pending.queued != {} || deferred != map[];
    }

    /** The whole loop from the roots. */
    method Run(maximumSteps: nat) returns (steps: nat, exceeded: bool)
      requires Valid() && ProgramLaws(program) && Snapshot() == EmptyView() && missingRoots == {}
      modifies this, pending
      ensures Valid() && Running(program, Snapshot()) && missingRoots == Missing(program, |program.roots|)
      ensures exceeded <==> !Finished(Snapshot())
      ensures exceeded ==> steps == maximumSteps
      ensures maximumSteps > StepBound(program) ==> !exceeded
      ensures steps <= maximumSteps && steps <= StepBound(program)
    {
      SeedRoots();
      SeededAllRuns(program);
      steps, exceeded := Drive(maximumSteps);
    }
  }

  lemma FewerDeferred<K, V>(m: map<K, V>, k: K)
    requires k in m
    ensures |m - {k}| < |m|
  {
    assert (m - {k}).Keys == m.Keys - {k};
    assert |m.Keys - {k}| == |m.Keys| - 1;
  }

  lemma DependentsKnown<S(!new)>(p: Program<S>, v: View<S>, key: WorkKey)
    requires ProgramLaws(p) && ValidView(p, v) && key in v.states
    ensures forall k | k in Dependents(BranchedOut(p, v, key), key.context) :: k.rva in p.adjacency
  {
    BranchedOutValid(p, v, key);
    var v' := BranchedOut(p, v, key);
    forall k | k in Dependents(v', key.context) ensures k.rva in p.adjacency { assert k in Universe(p); }
  }
}
