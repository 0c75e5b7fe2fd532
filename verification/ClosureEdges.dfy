/** Which edges a closure run records: everything an evaluation sends, and nothing else. */
module ClosureEdges {
  import opened Identities
  import opened Priorities
  import opened Worklist

  function EdgeOf<S>(source: nat, send: Send<S>): Edge { Edge(source, send.target, send.kind) }

  /** The edge of a successor is on record, among the edges or among those that leave the universe. */
  ghost predicate Recorded<S>(p: Program<S>, v: View<S>, e: Edge) {
    if e.target in p.adjacency then e in v.edges else e in v.outside
  }

  ghost predicate BranchRecorded<S>(p: Program<S>, v: View<S>, key: WorkKey, branch: Branch<S>) {
    Recorded(p, v, EdgeOf(key.rva, BranchSend(key, branch))) || (key, branch.target) in v.deferred
  }

  /** Everything a stored key emits on its present state and summaries has its edge on record, or waits for it. */
  ghost predicate OutcomeRecorded<S>(p: Program<S>, v: View<S>, key: WorkKey)
    requires key in v.states
  {
    var o := OutcomeAt(p, v, key);
    && (forall i | 0 <= i < |o.sends| :: Recorded(p, v, EdgeOf(key.rva, o.sends[i])))
    && (forall i | 0 <= i < |o.branches| :: BranchRecorded(p, v, key, o.branches[i]))
  }

  /** An evaluation of a stored key, on a state its present one covers, emitted the edge. */
  ghost predicate Emission<S>(p: Program<S>, v: View<S>, e: Edge, key: WorkKey, s: S, m: map<Context, S>) {
    && key in v.states && p.domain.valid(s) && Covers(p.domain, v.states[key], s) && ValidSummaries(p, m)
    && EmitsEdge(p.outcome(key, s, m), key, e)
  }

  ghost predicate EmitsEdge<S>(o: Outcome<S>, key: WorkKey, e: Edge) {
    || (exists i :: 0 <= i < |o.sends| && EdgeOf(key.rva, o.sends[i]) == e)
    || (exists i :: 0 <= i < |o.branches| && EdgeOf(key.rva, BranchSend(key, o.branches[i])) == e)
  }

  ghost predicate Emitted<S(!new)>(p: Program<S>, v: View<S>, e: Edge) { exists key, s, m :: Emission(p, v, e, key, s, m) }

  function Waiting(entry: (WorkKey, nat)): Edge { Edge(entry.0.rva, entry.1, DirectControl) }

  /** Every edge on record, and every one that waits, was emitted; edges stay inside the universe and the reported ones
      leave it. */
  ghost predicate EdgesSound<S(!new)>(p: Program<S>, v: View<S>) {
    && (forall e | e in v.edges :: e.target in p.adjacency && Emitted(p, v, e))
    && (forall e | e in v.outside :: e.target !in p.adjacency && Emitted(p, v, e))
    && (forall d | d in v.deferred :: Emitted(p, v, Waiting(d)))
  }

  ghost predicate EdgeInvariant<S(!new)>(p: Program<S>, v: View<S>, exempt: set<WorkKey>) {
    && EdgesSound(p, v)
    && forall k | k in v.states && k !in v.queued && k !in exempt :: OutcomeRecorded(p, v, k)
  }

  // ----- what every operation keeps

  ghost predicate EdgesGrow<S>(v: View<S>, v': View<S>) { v.edges <= v'.edges && v.outside <= v'.outside }

  lemma EmittedKept<S(!new)>(p: Program<S>, current: WorkKey, v: View<S>, v': View<S>, e: Edge)
    requires ProgramLaws(p) && Grows(p, current, v, v') && Emitted(p, v, e)
    ensures Emitted(p, v', e)
  {
    var key, s, m :| Emission(p, v, e, key, s, m);
    CoversKept(p, current, v, v', key, s);
    assert Emission(p, v', e, key, s, m);
  }

  lemma CoversKept<S(!new)>(p: Program<S>, current: WorkKey, v: View<S>, v': View<S>, key: WorkKey, s: S)
    requires ProgramLaws(p) && Grows(p, current, v, v') && key in v.states && p.domain.valid(s)
    requires Covers(p.domain, v.states[key], s)
    ensures key in v'.states && Covers(p.domain, v'.states[key], s)
  {
    assert Covers(p.domain, v'.states[key], v.states[key]);
  }

  lemma SoundKept<S(!new)>(p: Program<S>, current: WorkKey, v: View<S>, v': View<S>)
    requires ProgramLaws(p) && Grows(p, current, v, v') && EdgesSound(p, v)
    requires v'.edges == v.edges && v'.outside == v.outside && v'.deferred.Keys <= v.deferred.Keys
    ensures EdgesSound(p, v')
  {
    forall e | e in v'.edges ensures Emitted(p, v', e) { EmittedKept(p, current, v, v', e); }
    forall e | e in v'.outside ensures Emitted(p, v', e) { EmittedKept(p, current, v, v', e); }
    forall d | d in v'.deferred ensures Emitted(p, v', Waiting(d)) { EmittedKept(p, current, v, v', Waiting(d)); }
  }

  /** Enqueueing puts exactly one edge on record, whether or not the state moves. */
  lemma EnqueuedEdges<S>(p: Program<S>, v: View<S>, source: nat, send: Send<S>)
    ensures var v' := Enqueued(p, v, source, send);
            && EdgesGrow(v, v') && Recorded(p, v', EdgeOf(source, send)) && v'.deferred == v.deferred
            && (forall e | e in v'.edges :: e in v.edges || (e == EdgeOf(source, send) && e.target in p.adjacency))
            && (forall e | e in v'.outside :: e in v.outside || (e == EdgeOf(source, send) && e.target !in p.adjacency))
  {
  }

  lemma EnqueuedSound<S(!new)>(p: Program<S>, current: WorkKey, v: View<S>, source: nat, send: Send<S>)
    requires ProgramLaws(p) && ValidView(p, v) && ValidSend(p, send)
    requires EdgesSound(p, v) && Emitted(p, v, EdgeOf(source, send))
    ensures EdgesSound(p, Enqueued(p, v, source, send))
  {
    var v' := Enqueued(p, v, source, send);
    EnqueuedGrows(p, current, v, source, send);
    EnqueuedEdges(p, v, source, send);
    forall e | Emitted(p, v, e) ensures Emitted(p, v', e) { EmittedKept(p, current, v, v', e); }
  }

  ghost predicate AllEmitted<S(!new)>(p: Program<S>, v: View<S>, source: nat, sends: seq<Send<S>>) {
    forall i | 0 <= i < |sends| :: Emitted(p, v, EdgeOf(source, sends[i]))
  }

  ghost predicate AllRecorded<S>(p: Program<S>, v: View<S>, source: nat, sends: seq<Send<S>>) {
    forall i | 0 <= i < |sends| :: Recorded(p, v, EdgeOf(source, sends[i]))
  }

  lemma {:induction false} SentAllEdges<S(!new)>(p: Program<S>, current: WorkKey, v: View<S>, source: nat, sends: seq<Send<S>>)
    requires ProgramLaws(p) && ValidView(p, v) && forall i | 0 <= i < |sends| :: ValidSend(p, sends[i])
    requires EdgesSound(p, v) && AllEmitted(p, v, source, sends)
    ensures EdgesSound(p, SentAll(p, v, source, sends)) && EdgesGrow(v, SentAll(p, v, source, sends))
    ensures AllRecorded(p, SentAll(p, v, source, sends), source, sends)
  {
    if sends != [] {
      var rest, last := sends[..|sends| - 1], sends[|sends| - 1];
      LastEmitted(p, v, source, sends, rest, last);
      SentAllEdges(p, current, v, source, rest);
      SentAllGrows(p, current, v, source, rest);
      SentEdge(p, current, v, SentAll(p, v, source, rest), source, rest, last);
      assert SentAll(p, v, source, sends) == Enqueued(p, SentAll(p, v, source, rest), source, last);
    }
  }

  lemma LastEmitted<S(!new)>(p: Program<S>, v: View<S>, source: nat, sends: seq<Send<S>>, rest: seq<Send<S>>, last: Send<S>)
    requires sends != [] && rest == sends[..|sends| - 1] && last == sends[|sends| - 1]
    requires AllEmitted(p, v, source, sends) && forall i | 0 <= i < |sends| :: ValidSend(p, sends[i])
    ensures AllEmitted(p, v, source, rest) && Emitted(p, v, EdgeOf(source, last)) && ValidSend(p, last)
    ensures rest + [last] == sends && forall i | 0 <= i < |rest| :: ValidSend(p, rest[i])
  {
  }

  lemma SentEdge<S(!new)>(p: Program<S>, current: WorkKey, v: View<S>, mid: View<S>, source: nat, rest: seq<Send<S>>, last: Send<S>)
    requires ProgramLaws(p) && Grows(p, current, v, mid) && ValidSend(p, last) && Emitted(p, v, EdgeOf(source, last))
    requires EdgesSound(p, mid) && EdgesGrow(v, mid) && AllRecorded(p, mid, source, rest)
    ensures EdgesSound(p, Enqueued(p, mid, source, last)) && EdgesGrow(v, Enqueued(p, mid, source, last))
    ensures AllRecorded(p, Enqueued(p, mid, source, last), source, rest + [last])
  {
    EmittedKept(p, current, v, mid, EdgeOf(source, last));
    EnqueuedEdges(p, mid, source, last);
    EnqueuedSound(p, current, mid, source, last);
    RecordedMore(p, mid, Enqueued(p, mid, source, last), source, rest, last);
  }

  lemma RecordedMore<S>(p: Program<S>, v: View<S>, v': View<S>, source: nat, rest: seq<Send<S>>, last: Send<S>)
    requires AllRecorded(p, v, source, rest) && EdgesGrow(v, v') && Recorded(p, v', EdgeOf(source, last))
    ensures AllRecorded(p, v', source, rest + [last])
  {
  }

  // ----- branches

  ghost predicate BranchesEmitted<S(!new)>(p: Program<S>, v: View<S>, key: WorkKey, branches: seq<Branch<S>>) {
    forall i | 0 <= i < |branches| :: Emitted(p, v, EdgeOf(key.rva, BranchSend(key, branches[i])))
  }

  ghost predicate BranchesRecorded<S>(p: Program<S>, v: View<S>, key: WorkKey, branches: seq<Branch<S>>) {
    forall i | 0 <= i < |branches| :: BranchRecorded(p, v, key, branches[i])
  }

  lemma BranchedEdges<S(!new)>(p: Program<S>, v: View<S>, key: WorkKey, branch: Branch<S>)
    requires ProgramLaws(p) && ValidView(p, v) && key in v.states && p.domain.valid(branch.state)
    requires EdgesSound(p, v) && Emitted(p, v, EdgeOf(key.rva, BranchSend(key, branch)))
    ensures EdgesSound(p, Branched(p, v, key, branch)) && EdgesGrow(v, Branched(p, v, key, branch))
    ensures BranchRecorded(p, Branched(p, v, key, branch), key, branch)
    ensures v.deferred.Keys <= Branched(p, v, key, branch).deferred.Keys
  {
    var v', send := Branched(p, v, key, branch), BranchSend(key, branch);
    assert key in Universe(p);
    if Edge(key.rva, branch.target, DirectControl) in v.edges {
      EnqueuedEdges(p, v, key.rva, send);
      EnqueuedSound(p, key, v, key.rva, send);
    } else {
      BranchedGrows(p, v, key, branch);
      forall e | Emitted(p, v, e) ensures Emitted(p, v', e) { EmittedKept(p, key, v, v', e); }
    }
  }

  lemma {:induction false} BranchedAllEdges<S(!new)>(p: Program<S>, v: View<S>, key: WorkKey, branches: seq<Branch<S>>)
    requires ProgramLaws(p) && ValidView(p, v) && key in v.states
    requires forall i | 0 <= i < |branches| :: p.domain.valid(branches[i].state)
    requires EdgesSound(p, v) && BranchesEmitted(p, v, key, branches)
    ensures EdgesSound(p, BranchedAll(p, v, key, branches)) && EdgesGrow(v, BranchedAll(p, v, key, branches))
    ensures BranchesRecorded(p, BranchedAll(p, v, key, branches), key, branches)
  {
    if branches != [] {
      var rest, last := branches[..|branches| - 1], branches[|branches| - 1];
      var mid := BranchedAll(p, v, key, rest);
      BranchedAllEdges(p, v, key, rest);
      BranchedAllValid(p, v, key, rest);
      BranchedAllGrows(p, v, key, rest);
      BranchEdge(p, v, mid, key, rest, last);
      assert rest + [last] == branches;
    }
  }

  lemma BranchEdge<S(!new)>(p: Program<S>, v: View<S>, mid: View<S>, key: WorkKey, rest: seq<Branch<S>>, last: Branch<S>)
    requires ProgramLaws(p) && Grows(p, key, v, mid) && key in mid.states && p.domain.valid(last.state)
    requires Emitted(p, v, EdgeOf(key.rva, BranchSend(key, last)))
    requires EdgesSound(p, mid) && EdgesGrow(v, mid) && BranchesRecorded(p, mid, key, rest)
    ensures EdgesSound(p, Branched(p, mid, key, last)) && EdgesGrow(v, Branched(p, mid, key, last))
    ensures BranchesRecorded(p, Branched(p, mid, key, last), key, rest + [last])
  {
    EmittedKept(p, key, v, mid, EdgeOf(key.rva, BranchSend(key, last)));
    BranchedEdges(p, mid, key, last);
    BranchesMore(p, mid, Branched(p, mid, key, last), key, rest, last);
  }

  lemma BranchesMore<S>(p: Program<S>, v: View<S>, v': View<S>, key: WorkKey, rest: seq<Branch<S>>, last: Branch<S>)
    requires BranchesRecorded(p, v, key, rest) && EdgesGrow(v, v') && v.deferred.Keys <= v'.deferred.Keys
    requires BranchRecorded(p, v', key, last)
    ensures BranchesRecorded(p, v', key, rest + [last])
  {
  }

  // ----- one whole evaluation

  lemma PresentEmitted<S(!new)>(p: Program<S>, v: View<S>, key: WorkKey)
    requires ProgramLaws(p) && ValidView(p, v) && key in v.states
    ensures AllEmitted(p, v, key.rva, OutcomeAt(p, v, key).sends)
    ensures BranchesEmitted(p, v, key, OutcomeAt(p, v, key).branches)
  {
    var o, s, m := OutcomeAt(p, v, key), v.states[key], Seen(p, v, key, v.states[key]);
    assert ValidSummaries(p, m) && Covers(p.domain, s, s);
    forall e | EmitsEdge(o, key, e) ensures Emitted(p, v, e) { assert Emission(p, v, e, key, s, m); }
    forall i | 0 <= i < |o.sends| ensures Emitted(p, v, EdgeOf(key.rva, o.sends[i])) {
      assert EmitsEdge(o, key, EdgeOf(key.rva, o.sends[i]));
    }
    forall i | 0 <= i < |o.branches| ensures Emitted(p, v, EdgeOf(key.rva, BranchSend(key, o.branches[i]))) {
      assert EmitsEdge(o, key, EdgeOf(key.rva, BranchSend(key, o.branches[i])));
    }
  }

  lemma SentOutEdges<S(!new)>(p: Program<S>, v: View<S>, key: WorkKey)
    requires ProgramLaws(p) && ValidView(p, v) && key in v.states && EdgesSound(p, v)
    ensures EdgesSound(p, SentOut(p, v, key)) && EdgesGrow(v, SentOut(p, v, key))
    ensures AllRecorded(p, SentOut(p, v, key), key.rva, OutcomeAt(p, v, key).sends)
  {
    var sends, subscribed := OutcomeAt(p, v, key).sends, Subscribed(p, v, key);
    PresentEmitted(p, v, key);
    SentOutGrows(p, v, key);
    OutcomeValid(p, v, key);
    SoundKept(p, key, v, subscribed);
    forall i | 0 <= i < |sends| ensures Emitted(p, subscribed, EdgeOf(key.rva, sends[i])) {
      EmittedKept(p, key, v, subscribed, EdgeOf(key.rva, sends[i]));
    }
    SentAllEdges(p, key, subscribed, key.rva, sends);
  }

  lemma BranchedOutEdges<S(!new)>(p: Program<S>, v: View<S>, key: WorkKey)
    requires ProgramLaws(p) && ValidView(p, v) && key in v.states && EdgesSound(p, v)
    ensures EdgesSound(p, BranchedOut(p, v, key)) && EdgesGrow(SentOut(p, v, key), BranchedOut(p, v, key))
    ensures BranchesRecorded(p, BranchedOut(p, v, key), key, OutcomeAt(p, v, key).branches)
  {
    var branches, sent := OutcomeAt(p, v, key).branches, SentOut(p, v, key);
    var cleared := if key.rva in p.branching then WithoutDeferred(sent, key) else sent;
    PresentEmitted(p, v, key);
    OutcomeValid(p, v, key);
    SentOutEdges(p, v, key);
    SentOutGrows(p, v, key);
    GrowsTransitive(p, key, v, Subscribed(p, v, key), sent);
    ClearedGrows(p, sent, key);
    GrowsReflexive(p, key, sent, sent);
    GrowsTransitive(p, key, v, sent, cleared);
    SoundKept(p, key, sent, cleared);
    forall i | 0 <= i < |branches| ensures Emitted(p, cleared, EdgeOf(key.rva, BranchSend(key, branches[i]))) {
      EmittedKept(p, key, v, cleared, EdgeOf(key.rva, BranchSend(key, branches[i])));
    }
    BranchedAllEdges(p, cleared, key, branches);
  }

  lemma EvaluatedEdges<S(!new)>(p: Program<S>, v: View<S>, key: WorkKey)
    requires ProgramLaws(p) && ValidView(p, v) && key in v.states && EdgesSound(p, v)
    ensures EdgesSound(p, Evaluated(p, v, key)) && EdgesGrow(v, Evaluated(p, v, key))
    ensures AllRecorded(p, Evaluated(p, v, key), key.rva, OutcomeAt(p, v, key).sends)
    ensures BranchesRecorded(p, Evaluated(p, v, key), key, OutcomeAt(p, v, key).branches)
  {
    SentOutEdges(p, v, key);
    BranchedOutEdges(p, v, key);
    BranchedOutValid(p, v, key);
    EvaluatedGrowsLast(p, v, key);
    SummarizedEdges(p, v, key);
    SoundKept(p, key, BranchedOut(p, v, key), Evaluated(p, v, key));
    RecordedGrows(p, SentOut(p, v, key), BranchedOut(p, v, key), Evaluated(p, v, key), key, OutcomeAt(p, v, key));
  }

  /** A summary changes nothing about edges. */
  lemma SummarizedEdges<S>(p: Program<S>, v: View<S>, key: WorkKey)
    requires key in v.states
    ensures Evaluated(p, v, key).edges == BranchedOut(p, v, key).edges
    ensures Evaluated(p, v, key).outside == BranchedOut(p, v, key).outside
    ensures Evaluated(p, v, key).deferred == BranchedOut(p, v, key).deferred
  {
  }

  lemma RecordedGrows<S>(p: Program<S>, sent: View<S>, out: View<S>, v': View<S>, key: WorkKey, o: Outcome<S>)
    requires AllRecorded(p, sent, key.rva, o.sends) && BranchesRecorded(p, out, key, o.branches)
    requires EdgesGrow(sent, out) && v'.edges == out.edges && v'.outside == out.outside && v'.deferred == out.deferred
    ensures AllRecorded(p, v', key.rva, o.sends) && BranchesRecorded(p, v', key, o.branches)
  {
    forall i | 0 <= i < |o.branches| ensures BranchRecorded(p, v', key, o.branches[i]) {
      assert BranchRecorded(p, out, key, o.branches[i]);
    }
  }

  lemma OutcomeRecordedKept<S(!new)>(p: Program<S>, current: WorkKey, v: View<S>, v': View<S>, key: WorkKey)
    requires Grows(p, current, v, v') && EdgesGrow(v, v') && key != current
    requires key in v.states && key !in v'.queued && Settled(p, v, key) && OutcomeRecorded(p, v, key)
    ensures key in v'.states && OutcomeRecorded(p, v', key)
  {
    OutcomeKept(p, current, v, v', key);
    var o := OutcomeAt(p, v, key);
    forall i | 0 <= i < |o.branches| ensures BranchRecorded(p, v', key, o.branches[i]) {
      assert BranchRecorded(p, v, key, o.branches[i]);
      var entry := (key, o.branches[i].target);
      assert entry in v.deferred ==> SameSlot(v.deferred, v'.deferred, entry);
    }
  }

  lemma EvaluatedKeepsEdges<S(!new)>(p: Program<S>, v: View<S>, key: WorkKey)
    requires ProgramLaws(p) && Invariant(p, v, {key}) && key in v.states && EdgeInvariant(p, v, {key})
    ensures EdgeInvariant(p, Evaluated(p, v, key), {})
  {
    var v' := Evaluated(p, v, key);
    EvaluatedGrows(p, v, key);
    EvaluatedEdges(p, v, key);
    forall k | k in v'.states && k !in v'.queued ensures OutcomeRecorded(p, v', k) {
      if k == key {
        CurrentKept(p, v, key);
      } else {
        assert SameSlot(v.states, v'.states, k);
        OutcomeRecordedKept(p, key, v, v', k);
      }
    }
  }

  // ----- what waits

  lemma {:induction false} WaitsFor<S>(p: Program<S>, v: View<S>, key: WorkKey, branches: seq<Branch<S>>, target: nat)
    requires (key, target) in BranchedAll(p, v, key, branches).deferred
    ensures (key, target) in v.deferred
         || exists i :: 0 <= i < |branches| && branches[i].target == target
                        && branches[i].state == BranchedAll(p, v, key, branches).deferred[(key, target)]
  {
    if branches != [] {
      var n := |branches| - 1;
      var mid := BranchedAll(p, v, key, branches[..n]);
      if branches[n].target != target || Edge(key.rva, branches[n].target, DirectControl) in mid.edges {
        WaitsFor(p, v, key, branches[..n], target);
        if i :| 0 <= i < n && branches[..n][i].target == target && branches[..n][i].state == mid.deferred[(key, target)] {
          assert branches[i] == branches[..n][i];
        }
      }
    }
  }

  /** After an evaluation that branches nothing waits for the key but its present successors. */
  lemma WaitingIsPresent<S>(p: Program<S>, v: View<S>, key: WorkKey, target: nat)
    requires key in v.states && key.rva in p.branching && (key, target) in Evaluated(p, v, key).deferred
    ensures (var branches := OutcomeAt(p, v, key).branches;
             exists i :: 0 <= i < |branches| && branches[i].target == target
                         && branches[i].state == Evaluated(p, v, key).deferred[(key, target)])
  {
    SummarizedEdges(p, v, key);
    WaitsFor(p, WithoutDeferred(SentOut(p, v, key), key), key, OutcomeAt(p, v, key).branches, target);
  }

  // ----- draining

  lemma DrainedKeepsEdges<S(!new)>(p: Program<S>, v: View<S>, entry: (WorkKey, nat))
    requires ProgramLaws(p) && Invariant(p, v, {}) && EdgeInvariant(p, v, {}) && entry in v.deferred
    ensures EdgeInvariant(p, Drained(p, v, entry), {})
  {
    var send := BranchSend(entry.0, Branch(entry.1, v.deferred[entry]));
    var sent, v' := Enqueued(p, v, entry.0.rva, send), Drained(p, v, entry);
    assert entry.0 in Universe(p) && ValidSend(p, send);
    assert EdgeOf(entry.0.rva, send) == Waiting(entry);
    EnqueuedEdges(p, v, entry.0.rva, send);
    EnqueuedSound(p, entry.0, v, entry.0.rva, send);
    EnqueuedGrows(p, entry.0, v, entry.0.rva, send);
    ForgottenGrows(p, sent, entry);
    SoundKept(p, entry.0, sent, v');
    forall k | k in v'.states && k !in v'.queued ensures OutcomeRecorded(p, v', k) {
      var other := WorkKey(k.rva + 1, k.context);
      EnqueuedGrows(p, other, v, entry.0.rva, send);
      assert SameSlot(v.states, sent.states, k);
      OutcomeRecordedKept(p, other, v, sent, k);
      DrainedRecorded(p, v, entry, k);
    }
  }

  lemma DrainedRecorded<S(!new)>(p: Program<S>, v: View<S>, entry: (WorkKey, nat), k: WorkKey)
    requires entry in v.deferred
    requires var send := BranchSend(entry.0, Branch(entry.1, v.deferred[entry]));
             var sent := Enqueued(p, v, entry.0.rva, send);
             && Recorded(p, sent, EdgeOf(entry.0.rva, send)) && sent.deferred == v.deferred
             && k in sent.states && OutcomeRecorded(p, sent, k)
    ensures k in Drained(p, v, entry).states && OutcomeRecorded(p, Drained(p, v, entry), k)
  {
    var sent := Enqueued(p, v, entry.0.rva, BranchSend(entry.0, Branch(entry.1, v.deferred[entry])));
    var v', o := Drained(p, v, entry), OutcomeAt(p, sent, k);
    assert Seen(p, v', k, v'.states[k]) == Seen(p, sent, k, v'.states[k]);
    forall i | 0 <= i < |o.branches| ensures BranchRecorded(p, v', k, o.branches[i]) {
      assert BranchRecorded(p, sent, k, o.branches[i]);
    }
  }

  // ----- the end of a run

  /** In a finished view every successor a stored key emits has its edge on record, replaced or not; and every edge on
      record was emitted by a stored key on a state it still covers. */
  lemma FinishedRecords<S(!new)>(p: Program<S>, v: View<S>, key: WorkKey, send: Send<S>)
    requires EdgeInvariant(p, v, {}) && Finished(v) && key in v.states && Emits(OutcomeAt(p, v, key), key, send)
    ensures if send.target in p.adjacency then EdgeOf(key.rva, send) in v.edges else EdgeOf(key.rva, send) in v.outside
  {
    var o := OutcomeAt(p, v, key);
    assert OutcomeRecorded(p, v, key);
    if send in o.sends {
      var i :| 0 <= i < |o.sends| && send == o.sends[i];
      assert Recorded(p, v, EdgeOf(key.rva, o.sends[i]));
    } else {
      var i :| 0 <= i < |o.branches| && send == BranchSend(key, o.branches[i]);
      assert BranchRecorded(p, v, key, o.branches[i]);
    }
  }

  lemma EdgesAreEmitted<S(!new)>(p: Program<S>, v: View<S>, e: Edge)
    requires EdgesSound(p, v) && (e in v.edges || e in v.outside)
    ensures e in v.edges <==> e.target in p.adjacency
    ensures exists key, s, m ::
              && Emission(p, v, e, key, s, m) && key.rva == e.source
              && exists send :: Emits(p.outcome(key, s, m), key, send) && EdgeOf(key.rva, send) == e
  {
    var key, s, m :| Emission(p, v, e, key, s, m);
    var o := p.outcome(key, s, m);
    if i :| 0 <= i < |o.sends| && EdgeOf(key.rva, o.sends[i]) == e {
      assert Emits(o, key, o.sends[i]);
    } else {
      var i :| 0 <= i < |o.branches| && EdgeOf(key.rva, BranchSend(key, o.branches[i])) == e;
      assert Emits(o, key, BranchSend(key, o.branches[i]));
    }
  }
}
