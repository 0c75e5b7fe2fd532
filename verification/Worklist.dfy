/** The closure worklist over an abstract state: what one evaluation sends, what a flush drains, and what holds
    when the queue runs dry.  States are values of any domain that obeys the coverage laws. */
module Worklist {
  import opened Identities
  import opened Sets
  import opened Priorities

  /** A joinable domain with a rank that bounds how often a slot can change. */
  datatype Domain<!S> = Domain(join: (S, S) -> S, valid: S -> bool, rank: S -> nat, height: nat)

  ghost predicate Covers<S>(d: Domain<S>, x: S, y: S) { d.join(x, y) == x }

  ghost predicate JoinLaw<S>(d: Domain<S>, x: S, y: S) {
    && d.valid(d.join(x, y))
    && Covers(d, d.join(x, y), x) && Covers(d, d.join(x, y), y)
    && (d.join(x, y) != x ==> d.rank(x) < d.rank(d.join(x, y)))
  }

  ghost predicate DomainLaws<S(!new)>(d: Domain<S>) {
    && (forall x | d.valid(x) :: d.rank(x) <= d.height && Covers(d, x, x))
    && (forall x, y {:trigger JoinLaw(d, x, y)} | d.valid(x) && d.valid(y) :: JoinLaw(d, x, y))
    && (forall x, y, z {:trigger Covers(d, z, y), Covers(d, y, x)} | d.valid(x) && d.valid(y) && d.valid(z) && Covers(d, z, y) && Covers(d, y, x) :: Covers(d, z, x))
  }

  datatype EdgeKind = DirectControl | InternalCall | CallbackEscape | IndirectControl | NonlocalControl

  datatype Edge = Edge(source: nat, target: nat, kind: EdgeKind)

  datatype Send<S> = Send(target: nat, kind: EdgeKind, context: Context, state: S)

  datatype Branch<S> = Branch(target: nat, state: S)

  /** What evaluating one key produces. */
  datatype Outcome<S> = Outcome(
    sends: seq<Send<S>>,           // successors enqueued at once
    registers: set<Context>,       // callee contexts whose summary this key depends on
    discovered: set<nat>,          // resolved indirect targets, which only reorder the queue
    branches: seq<Branch<S>>,      // branch successors, false before true
    summary: Option<S>)            // the state this key returns with

  datatype Program<!S> = Program(
    domain: Domain<S>,
    adjacency: Adjacency,          // every transfer, with its static successors
    branching: set<nat>,           // the transfers that end in a branch
    contexts: set<Context>,
    roots: seq<nat>,
    initial: nat -> S,
    consults: (WorkKey, S) -> set<Context>,
    outcome: (WorkKey, S, map<Context, S>) -> Outcome<S>,
    boundary: S -> S,
    effectSummary: S -> S)

  function RootContext(root: nat): Context { Context(root, root, []) }

  function Universe<S>(p: Program<S>): set<WorkKey> {
    set rva, context | rva in p.adjacency && context in p.contexts :: WorkKey(rva, context)
  }

  ghost predicate ValidOutcome<S>(p: Program<S>, key: WorkKey, o: Outcome<S>) {
    && (forall i | 0 <= i < |o.sends| :: o.sends[i].context in p.contexts && p.domain.valid(o.sends[i].state))
    && (forall i | 0 <= i < |o.branches| :: p.domain.valid(o.branches[i].state))
    && (o.branches != [] ==> key.rva in p.branching)
    && (o.summary.Some? ==> p.domain.valid(o.summary.value))
  }

  ghost predicate ValidSummaries<S>(p: Program<S>, summaries: map<Context, S>) {
    forall c | c in summaries :: c in p.contexts && p.domain.valid(summaries[c])
  }

  ghost predicate ProgramLaws<S(!new)>(p: Program<S>) {
    && DomainLaws(p.domain)
    && ClosedGraph(p.adjacency)
    && (forall s | p.domain.valid(s) :: p.domain.valid(p.boundary(s)) && p.domain.valid(p.effectSummary(s)))
    && (forall i | 0 <= i < |p.roots| :: RootContext(p.roots[i]) in p.contexts && p.domain.valid(p.initial(p.roots[i])))
    && (forall key, s, m | key in Universe(p) && p.domain.valid(s) && ValidSummaries(p, m)
          :: ValidOutcome(p, key, p.outcome(key, s, m)))
  }

  /** Everything the loop keeps between two steps. */
  datatype View<S> = View(
    states: map<WorkKey, S>,
    queued: set<WorkKey>,
    summaries: map<Context, S>,
    dependents: map<Context, set<WorkKey>>,
    edges: set<Edge>,
    deferred: map<(WorkKey, nat), S>,
    outside: set<Edge>)            // edges that leave the exact universe, each reported

  function Dependents<S>(v: View<S>, context: Context): set<WorkKey> {
    if context in v.dependents then v.dependents[context] else {}
  }

  // ----- the operations on values

  /** enqueue_native_state */
  function Enqueued<S(==)>(p: Program<S>, v: View<S>, source: nat, send: Send<S>): View<S> {
    var edge := Edge(source, send.target, send.kind);
    if send.target !in p.adjacency then v.(outside := v.outside + {edge})
    else
      var key := WorkKey(send.target, send.context);
      var incoming := p.boundary(send.state);
      var joined := if key in v.states then p.domain.join(v.states[key], incoming) else incoming;
      if key in v.states && v.states[key] == joined then v.(edges := v.edges + {edge})
      else v.(edges := v.edges + {edge}, states := v.states[key := joined], queued := v.queued + {key})
  }

  function SentAll<S(==)>(p: Program<S>, v: View<S>, source: nat, sends: seq<Send<S>>): View<S> {
    if sends == [] then v
    else Enqueued(p, SentAll(p, v, source, sends[..|sends| - 1]), source, sends[|sends| - 1])
  }

  /** update_native_return_summary */
  function Summarized<S(==)>(p: Program<S>, v: View<S>, context: Context, state: S): View<S> {
    var summary := p.effectSummary(state);
    var joined := if context in v.summaries then p.domain.join(v.summaries[context], summary) else summary;
    if context in v.summaries && v.summaries[context] == joined then v
    else v.(summaries := v.summaries[context := joined], queued := v.queued + Dependents(v, context))
  }

  function BranchSend<S>(key: WorkKey, branch: Branch<S>): Send<S> {
    Send(branch.target, DirectControl, key.context, branch.state)
  }

  /** A branch successor goes out at once along a known edge and waits otherwise. */
  function Branched<S(==)>(p: Program<S>, v: View<S>, key: WorkKey, branch: Branch<S>): View<S> {
    if Edge(key.rva, branch.target, DirectControl) in v.edges then Enqueued(p, v, key.rva, BranchSend(key, branch))
    else v.(deferred := v.deferred[(key, branch.target) := branch.state])
  }

  function BranchedAll<S(==)>(p: Program<S>, v: View<S>, key: WorkKey, branches: seq<Branch<S>>): View<S> {
    if branches == [] then v
    else Branched(p, BranchedAll(p, v, key, branches[..|branches| - 1]), key, branches[|branches| - 1])
  }

  function Registered<S>(v: View<S>, key: WorkKey, contexts: set<Context>): View<S> {
    v.(dependents := map c | c in v.dependents.Keys + contexts
        :: if c in contexts then Dependents(v, c) + {key} else Dependents(v, c))
  }

  function WithoutDeferred<S>(v: View<S>, key: WorkKey): View<S> {
    v.(deferred := map e | e in v.deferred && e.0 != key :: v.deferred[e])
  }

  /** The summaries a key looks at when it runs on its stored state. */
  function Seen<S>(p: Program<S>, v: View<S>, key: WorkKey, s: S): map<Context, S> {
    map c | c in p.consults(key, s) && c in v.summaries :: v.summaries[c]
  }

  function OutcomeAt<S>(p: Program<S>, v: View<S>, key: WorkKey): Outcome<S>
    requires key in v.states
  {
    p.outcome(key, v.states[key], Seen(p, v, key, v.states[key]))
  }

  /** The dependencies of an evaluation are on record before any summary is looked up. */
  function Subscribed<S>(p: Program<S>, v: View<S>, key: WorkKey): View<S>
    requires key in v.states
  {
    Registered(v, key, OutcomeAt(p, v, key).registers + p.consults(key, v.states[key]))
  }

  function SentOut<S(==)>(p: Program<S>, v: View<S>, key: WorkKey): View<S>
    requires key in v.states
  {
    SentAll(p, Subscribed(p, v, key), key.rva, OutcomeAt(p, v, key).sends)
  }

  /** A branch first drops whatever this key left waiting before. */
  function BranchedOut<S(==)>(p: Program<S>, v: View<S>, key: WorkKey): View<S>
    requires key in v.states
  {
    var sent := SentOut(p, v, key);
    BranchedAll(p, if key.rva in p.branching then WithoutDeferred(sent, key) else sent, key, OutcomeAt(p, v, key).branches)
  }

  /** One evaluation of a key that has just been taken off the queue. */
  function Evaluated<S(==)>(p: Program<S>, v: View<S>, key: WorkKey): View<S>
    requires key in v.states
  {
    var summary := OutcomeAt(p, v, key).summary;
    if summary.Some? then Summarized(p, BranchedOut(p, v, key), key.context, summary.value) else BranchedOut(p, v, key)
  }

  // ----- what a stored state is owed

  ghost predicate Delivered<S>(p: Program<S>, v: View<S>, source: nat, send: Send<S>) {
    if send.target !in p.adjacency then Edge(source, send.target, send.kind) in v.outside
    else
      var key := WorkKey(send.target, send.context);
      key in v.states && Covers(p.domain, v.states[key], p.boundary(send.state))
  }

  ghost predicate StillDeferred<S>(v: View<S>, key: WorkKey, branch: Branch<S>) {
    (key, branch.target) in v.deferred && v.deferred[(key, branch.target)] == branch.state
  }

  ghost predicate BranchHeld<S>(p: Program<S>, v: View<S>, key: WorkKey, branch: Branch<S>) {
    Delivered(p, v, key.rva, BranchSend(key, branch)) || StillDeferred(v, key, branch)
  }

  /** No later successor of the same branch goes to the same target. */
  predicate LastOfTarget<S>(branches: seq<Branch<S>>, i: nat)
    requires i < |branches|
  {
    forall j | i < j < |branches| :: branches[j].target != branches[i].target
  }

  ghost predicate SummaryHeld<S>(p: Program<S>, v: View<S>, context: Context, state: S) {
    context in v.summaries && Covers(p.domain, v.summaries[context], p.effectSummary(state))
  }

  /** The key was last evaluated on its present state and present summaries, and nothing it produced is lost. */
  ghost predicate Settled<S>(p: Program<S>, v: View<S>, key: WorkKey)
    requires key in v.states
  {
    var s, o := v.states[key], OutcomeAt(p, v, key);
    && (forall c | c in o.registers + p.consults(key, s) :: key in Dependents(v, c))
    && (forall i | 0 <= i < |o.sends| :: Delivered(p, v, key.rva, o.sends[i]))
    && AllHeld(p, v, key, o.branches)
    && (o.summary.Some? ==> SummaryHeld(p, v, key.context, o.summary.value))
  }

  ghost predicate ValidView<S>(p: Program<S>, v: View<S>) {
    && (forall k | k in v.states :: k in Universe(p) && p.domain.valid(v.states[k]))
    && v.queued <= v.states.Keys
    && ValidSummaries(p, v.summaries)
    && (forall c | c in v.dependents :: v.dependents[c] <= v.states.Keys)
    && (forall e | e in v.deferred :: e.0 in v.states && p.domain.valid(v.deferred[e]))
  }

  ghost predicate Invariant<S>(p: Program<S>, v: View<S>, exempt: set<WorkKey>) {
    && ValidView(p, v)
    && forall k | k in v.states && k !in v.queued && k !in exempt :: Settled(p, v, k)
  }

  // ----- the cost that pays for every step

  /** Ranks a slot can still rise through. */
  ghost function Tokens<K, S>(d: Domain<S>, keys: set<K>, m: map<K, S>): set<(K, nat)> {
    set k, r | k in keys && r in Ranks(d.height) && !Climbed(d, m, k, r) :: (k, r)
  }

  ghost predicate Climbed<K, S>(d: Domain<S>, m: map<K, S>, k: K, r: nat) { k in m && r <= d.rank(m[k]) }

  ghost function Ranks(height: nat): (ranks: set<nat>)
    ensures forall r: nat :: r in ranks <==> r <= height
    ensures |ranks| == height + 1
  {
    if height == 0 then {0} else Ranks(height - 1) + {height}
  }

  /** A product the solver does not have to multiply out. */
  function Times(n: nat, weight: nat): nat { if n == 0 then 0 else Times(n - 1, weight) + weight }

  ghost function Cost<S>(p: Program<S>, v: View<S>): nat {
    |Tokens(p.domain, Universe(p), v.states)|
    + Times(|Tokens(p.domain, p.contexts, v.summaries)|, |Universe(p)|)
    + |v.queued|
  }

  lemma TokensInsert<K, S>(d: Domain<S>, keys: set<K>, m: map<K, S>, k: K, s: S)
    requires k in keys && d.rank(s) <= d.height && (k in m ==> d.rank(m[k]) < d.rank(s))
    ensures |Tokens(d, keys, m[k := s])| < |Tokens(d, keys, m)|
  {
    var before, after := Tokens(d, keys, m), Tokens(d, keys, m[k := s]);
    assert d.rank(s) in Ranks(d.height);
    assert (k, d.rank(s)) in before && (k, d.rank(s)) !in after;
    forall t | t in after ensures t in before { }
    SubsetCard(after, before);
  }

  // ----- growth: what every operation keeps for the keys it does not evaluate

  ghost predicate SameSlot<K, S>(m: map<K, S>, m': map<K, S>, k: K) { k in m && k in m' && m[k] == m'[k] }

  ghost predicate Rises<K, S>(d: Domain<S>, m: map<K, S>, m': map<K, S>) {
    forall k | k in m :: k in m' && Covers(d, m'[k], m[k])
  }

  /** States only rise, and a state that moved is on the queue. */
  ghost predicate StatesGrow<S>(d: Domain<S>, v: View<S>, v': View<S>) {
    && Rises(d, v.states, v'.states)
    && v.queued <= v'.queued
    && forall k | k in v'.states && k !in v'.queued :: SameSlot(v.states, v'.states, k)
  }

  ghost predicate Awakened<S>(v: View<S>, v': View<S>, context: Context) { Dependents(v, context) <= v'.queued }

  /** Summaries only rise, and whoever depended on one that moved is on the queue. */
  ghost predicate SummariesGrow<S>(d: Domain<S>, v: View<S>, v': View<S>) {
    && Rises(d, v.summaries, v'.summaries)
    && (forall c | c in v'.summaries :: SameSlot(v.summaries, v'.summaries, c) || Awakened(v, v', c))
    && (forall c | c in v.dependents :: c in v'.dependents && v.dependents[c] <= v'.dependents[c])
  }

  ghost predicate DeferredKept<S>(current: WorkKey, v: View<S>, v': View<S>) {
    forall e | e in v.deferred && e.0 != current :: SameSlot(v.deferred, v'.deferred, e)
  }

  ghost predicate Grows<S>(p: Program<S>, current: WorkKey, v: View<S>, v': View<S>) {
    && ValidView(p, v) && ValidView(p, v')
    && StatesGrow(p.domain, v, v')
    && SummariesGrow(p.domain, v, v')
    && DeferredKept(current, v, v')
    && v.outside <= v'.outside
    && Cost(p, v') <= Cost(p, v)
  }

  lemma GrowsReflexive<S(!new)>(p: Program<S>, current: WorkKey, v: View<S>, v': View<S>)
    requires DomainLaws(p.domain) && ValidView(p, v)
    requires v' == v.(edges := v'.edges, outside := v'.outside) && v.outside <= v'.outside
    ensures Grows(p, current, v, v')
  {
  }

  lemma RisesTransitive<K, S(!new)>(d: Domain<S>, a: map<K, S>, b: map<K, S>, c: map<K, S>)
    requires DomainLaws(d)
    requires (forall k | k in a :: d.valid(a[k])) && (forall k | k in b :: d.valid(b[k])) && (forall k | k in c :: d.valid(c[k]))
    requires Rises(d, a, b) && Rises(d, b, c)
    ensures Rises(d, a, c)
  {
  }

  lemma StatesGrowTransitive<S(!new)>(d: Domain<S>, a: View<S>, b: View<S>, c: View<S>)
    requires Rises(d, a.states, c.states) && StatesGrow(d, a, b) && StatesGrow(d, b, c)
    ensures StatesGrow(d, a, c)
  {
    forall k | k in c.states && k !in c.queued ensures SameSlot(a.states, c.states, k) {
      assert SameSlot(b.states, c.states, k);
      assert SameSlot(a.states, b.states, k);
    }
  }

  lemma SummariesGrowTransitive<S(!new)>(d: Domain<S>, a: View<S>, b: View<S>, c: View<S>)
    requires Rises(d, a.summaries, c.summaries) && SummariesGrow(d, a, b) && SummariesGrow(d, b, c) && b.queued <= c.queued
    ensures SummariesGrow(d, a, c)
  {
    forall x | x in c.summaries ensures SameSlot(a.summaries, c.summaries, x) || Awakened(a, c, x) {
      if SameSlot(b.summaries, c.summaries, x) {
        assert SameSlot(a.summaries, b.summaries, x) || Awakened(a, b, x);
      } else {
        assert Awakened(b, c, x);
      }
    }
  }

  lemma GrowsTransitive<S(!new)>(p: Program<S>, current: WorkKey, a: View<S>, b: View<S>, c: View<S>)
    requires ProgramLaws(p) && Grows(p, current, a, b) && Grows(p, current, b, c)
    ensures Grows(p, current, a, c)
  {
    RisesTransitive(p.domain, a.states, b.states, c.states);
    RisesTransitive(p.domain, a.summaries, b.summaries, c.summaries);
    StatesGrowTransitive(p.domain, a, b, c);
    SummariesGrowTransitive(p.domain, a, b, c);
    forall e | e in a.deferred && e.0 != current ensures SameSlot(a.deferred, c.deferred, e) {
      assert SameSlot(a.deferred, b.deferred, e);
    }
  }

  lemma DeliveredKept<S(!new)>(p: Program<S>, current: WorkKey, v: View<S>, v': View<S>, source: nat, send: Send<S>)
    requires ProgramLaws(p) && Grows(p, current, v, v') && p.domain.valid(send.state)
    requires Delivered(p, v, source, send)
    ensures Delivered(p, v', source, send)
  {
  }

  lemma SummaryKept<S(!new)>(p: Program<S>, current: WorkKey, v: View<S>, v': View<S>, context: Context, state: S)
    requires ProgramLaws(p) && Grows(p, current, v, v') && p.domain.valid(state)
    requires SummaryHeld(p, v, context, state)
    ensures SummaryHeld(p, v', context, state)
  {
  }

  /** A key that stays off the queue keeps its state and the summaries it read. */
  lemma OutcomeKept<S(!new)>(p: Program<S>, current: WorkKey, v: View<S>, v': View<S>, key: WorkKey)
    requires Grows(p, current, v, v') && key in v.states && key !in v'.queued
    requires forall c | c in p.consults(key, v.states[key]) :: key in Dependents(v, c)
    ensures key in v'.states && v'.states[key] == v.states[key]
    ensures OutcomeAt(p, v', key) == OutcomeAt(p, v, key)
  {
    assert SameSlot(v.states, v'.states, key);
    var s := v.states[key];
    forall c | c in p.consults(key, s) ensures c in v.summaries <==> c in v'.summaries
      ensures c in v.summaries ==> v.summaries[c] == v'.summaries[c]
    {
      assert key in Dependents(v, c);
      if c in v'.summaries { assert SameSlot(v.summaries, v'.summaries, c); }
    }
    assert Seen(p, v, key, s) == Seen(p, v', key, s);
  }

  /** The frame rule: evaluating one key leaves every other settled key settled, or puts it back on the queue. */
  lemma SettledKept<S(!new)>(p: Program<S>, current: WorkKey, v: View<S>, v': View<S>, key: WorkKey)
    requires ProgramLaws(p) && Grows(p, current, v, v')
    requires key in v.states && key != current && key !in v'.queued && Settled(p, v, key)
    ensures key in v'.states && Settled(p, v', key)
  {
    OutcomeKept(p, current, v, v', key);
    var o := OutcomeAt(p, v, key);
    assert ValidOutcome(p, key, o) by { assert ValidSummaries(p, Seen(p, v, key, v.states[key])); }
    forall c | c in o.registers + p.consults(key, v.states[key]) ensures key in Dependents(v', c) {
      assert c in v.dependents;
    }
    forall i | 0 <= i < |o.sends| ensures Delivered(p, v', key.rva, o.sends[i]) {
      DeliveredKept(p, current, v, v', key.rva, o.sends[i]);
    }
    forall i: nat | i < |o.branches| && LastOfTarget(o.branches, i) ensures BranchHeld(p, v', key, o.branches[i]) {
      BranchKept(p, current, v, v', key, o.branches[i]);
    }
    if o.summary.Some? { SummaryKept(p, current, v, v', key.context, o.summary.value); }
  }

  lemma BranchKept<S(!new)>(p: Program<S>, current: WorkKey, v: View<S>, v': View<S>, key: WorkKey, branch: Branch<S>)
    requires ProgramLaws(p) && Grows(p, current, v, v') && p.domain.valid(branch.state)
    requires BranchHeld(p, v, key, branch)
    requires key != current || v'.deferred == v.deferred
    ensures BranchHeld(p, v', key, branch)
  {
    if Delivered(p, v, key.rva, BranchSend(key, branch)) {
      DeliveredKept(p, current, v, v', key.rva, BranchSend(key, branch));
    } else if key != current {
      assert SameSlot(v.deferred, v'.deferred, (key, branch.target));
    }
  }

  // ----- every operation grows the view and delivers what it carries

  /** Absorbing a state into a slot covers it, and a slot that moved has used up a rank. */
  lemma Absorbed<K, S(!new)>(d: Domain<S>, keys: set<K>, m: map<K, S>, k: K, s: S, joined: S)
    requires DomainLaws(d) && k in keys && d.valid(s) && (forall x | x in m :: d.valid(m[x]))
    requires joined == if k in m then d.join(m[k], s) else s
    ensures d.valid(joined) && Covers(d, joined, s) && Rises(d, m, m[k := joined])
    ensures (k in m && m[k] == joined) || |Tokens(d, keys, m[k := joined])| < |Tokens(d, keys, m)|
  {
    if k in m { assert JoinLaw(d, m[k], s); }
    if !(k in m && m[k] == joined) { TokensInsert(d, keys, m, k, joined); }
  }

  lemma EnqueuedGrows<S(!new)>(p: Program<S>, current: WorkKey, v: View<S>, source: nat, send: Send<S>)
    requires ProgramLaws(p) && ValidView(p, v) && send.context in p.contexts && p.domain.valid(send.state)
    ensures Grows(p, current, v, Enqueued(p, v, source, send))
    ensures Delivered(p, Enqueued(p, v, source, send), source, send)
    ensures Enqueued(p, v, source, send).deferred == v.deferred
  {
    if send.target in p.adjacency {
      EnqueuedInside(p, current, v, source, send);
    } else {
      GrowsReflexive(p, current, v, Enqueued(p, v, source, send));
    }
  }

  lemma EnqueuedInside<S(!new)>(p: Program<S>, current: WorkKey, v: View<S>, source: nat, send: Send<S>)
    requires ProgramLaws(p) && ValidView(p, v) && send.context in p.contexts && p.domain.valid(send.state)
    requires send.target in p.adjacency
    ensures Grows(p, current, v, Enqueued(p, v, source, send))
    ensures Delivered(p, Enqueued(p, v, source, send), source, send)
  {
    var key, incoming := WorkKey(send.target, send.context), p.boundary(send.state);
    assert key in Universe(p);
    var joined := if key in v.states then p.domain.join(v.states[key], incoming) else incoming;
    Absorbed(p.domain, Universe(p), v.states, key, incoming, joined);
    EnqueuedJoins(p, current, v, source, send, joined);
  }

  lemma EnqueuedJoins<S(!new)>(p: Program<S>, current: WorkKey, v: View<S>, source: nat, send: Send<S>, joined: S)
    requires DomainLaws(p.domain) && ValidView(p, v) && send.target in p.adjacency && p.domain.valid(joined)
    requires var key, incoming := WorkKey(send.target, send.context), p.boundary(send.state);
             && key in Universe(p) && Rises(p.domain, v.states, v.states[key := joined])
             && joined == (if key in v.states then p.domain.join(v.states[key], incoming) else incoming)
             && ((key in v.states && v.states[key] == joined)
                 || |Tokens(p.domain, Universe(p), v.states[key := joined])| < |Tokens(p.domain, Universe(p), v.states)|)
    ensures Grows(p, current, v, Enqueued(p, v, source, send))
    ensures Enqueued(p, v, source, send).states == v.states[WorkKey(send.target, send.context) := joined]
  {
    var key, v' := WorkKey(send.target, send.context), Enqueued(p, v, source, send);
    if key in v.states && v.states[key] == joined {
      assert v.states == v.states[key := joined];
      assert v' == v.(edges := v'.edges);
      GrowsReflexive(p, current, v, v');
    } else {
      assert v' == v.(edges := v'.edges, states := v.states[key := joined], queued := v.queued + {key});
      StoredGrows(p, current, v, v', key, joined);
    }
  }

  lemma StoredGrows<S(!new)>(p: Program<S>, current: WorkKey, v: View<S>, v': View<S>, key: WorkKey, joined: S)
    requires DomainLaws(p.domain) && ValidView(p, v) && key in Universe(p) && p.domain.valid(joined)
    requires v' == v.(edges := v'.edges, states := v.states[key := joined], queued := v.queued + {key})
    requires Rises(p.domain, v.states, v'.states)
    requires |Tokens(p.domain, Universe(p), v'.states)| < |Tokens(p.domain, Universe(p), v.states)|
    ensures Grows(p, current, v, v')
  {
    assert StatesGrow(p.domain, v, v') by {
      forall k | k in v'.states && k !in v'.queued ensures SameSlot(v.states, v'.states, k) { }
    }
    SummariesUntouched(p, v, v');
    StoredCost(p, v, v', key);
  }

  lemma SummariesUntouched<S(!new)>(p: Program<S>, v: View<S>, v': View<S>)
    requires DomainLaws(p.domain) && ValidView(p, v) && v'.summaries == v.summaries && v'.dependents == v.dependents
    ensures SummariesGrow(p.domain, v, v')
  {
    forall c | c in v'.summaries ensures SameSlot(v.summaries, v'.summaries, c) || Awakened(v, v', c) { }
  }

  lemma StoredCost<S(!new)>(p: Program<S>, v: View<S>, v': View<S>, key: WorkKey)
    requires v'.summaries == v.summaries && v'.queued == v.queued + {key}
    requires |Tokens(p.domain, Universe(p), v'.states)| < |Tokens(p.domain, Universe(p), v.states)|
    ensures Cost(p, v') <= Cost(p, v)
  {
    UnionCard(v.queued, {key});
  }

  ghost predicate AllDelivered<S>(p: Program<S>, v: View<S>, source: nat, sends: seq<Send<S>>) {
    forall i | 0 <= i < |sends| :: Delivered(p, v, source, sends[i])
  }

  ghost predicate ValidSend<S>(p: Program<S>, send: Send<S>) { send.context in p.contexts && p.domain.valid(send.state) }

  lemma {:induction false} SentAllGrows<S(!new)>(p: Program<S>, current: WorkKey, v: View<S>, source: nat, sends: seq<Send<S>>)
    requires ProgramLaws(p) && ValidView(p, v) && forall i | 0 <= i < |sends| :: ValidSend(p, sends[i])
    ensures Grows(p, current, v, SentAll(p, v, source, sends)) && AllDelivered(p, SentAll(p, v, source, sends), source, sends)
    ensures SentAll(p, v, source, sends).deferred == v.deferred
  {
    if sends == [] {
      GrowsReflexive(p, current, v, v);
    } else {
      var rest, last := sends[..|sends| - 1], sends[|sends| - 1];
      SentAllGrows(p, current, v, source, rest);
      SentOneMore(p, current, v, SentAll(p, v, source, rest), source, rest, last);
      assert rest + [last] == sends;
    }
  }

  lemma SentOneMore<S(!new)>(p: Program<S>, current: WorkKey, v: View<S>, mid: View<S>, source: nat, rest: seq<Send<S>>,
                             last: Send<S>)
    requires ProgramLaws(p) && Grows(p, current, v, mid) && ValidSend(p, last)
    requires AllDelivered(p, mid, source, rest) && forall i | 0 <= i < |rest| :: ValidSend(p, rest[i])
    ensures Grows(p, current, v, Enqueued(p, mid, source, last))
    ensures AllDelivered(p, Enqueued(p, mid, source, last), source, rest + [last])
    ensures Enqueued(p, mid, source, last).deferred == mid.deferred
  {
    var v' := Enqueued(p, mid, source, last);
    EnqueuedGrows(p, current, mid, source, last);
    GrowsTransitive(p, current, v, mid, v');
    forall i | 0 <= i < |rest| ensures Delivered(p, v', source, rest[i]) {
      DeliveredKept(p, current, mid, v', source, rest[i]);
    }
  }

  lemma SummarizedGrows<S(!new)>(p: Program<S>, current: WorkKey, v: View<S>, context: Context, state: S)
    requires ProgramLaws(p) && ValidView(p, v) && context in p.contexts && p.domain.valid(state)
    ensures Grows(p, current, v, Summarized(p, v, context, state))
    ensures SummaryHeld(p, Summarized(p, v, context, state), context, state)
    ensures Summarized(p, v, context, state).deferred == v.deferred
  {
    var summary, v' := p.effectSummary(state), Summarized(p, v, context, state);
    var joined := if context in v.summaries then p.domain.join(v.summaries[context], summary) else summary;
    Absorbed(p.domain, p.contexts, v.summaries, context, summary, joined);
    if context in v.summaries && v.summaries[context] == joined {
      GrowsReflexive(p, current, v, v');
    } else {
      SummaryStoredGrows(p, current, v, v', context, joined);
    }
  }

  lemma SummaryStoredGrows<S(!new)>(p: Program<S>, current: WorkKey, v: View<S>, v': View<S>, context: Context, joined: S)
    requires DomainLaws(p.domain) && ValidView(p, v) && context in p.contexts && p.domain.valid(joined)
    requires v' == v.(summaries := v.summaries[context := joined], queued := v.queued + Dependents(v, context))
    requires Rises(p.domain, v.summaries, v'.summaries)
    requires |Tokens(p.domain, p.contexts, v'.summaries)| < |Tokens(p.domain, p.contexts, v.summaries)|
    ensures Grows(p, current, v, v')
  {
    assert StatesGrow(p.domain, v, v');
    assert SummariesGrow(p.domain, v, v') by {
      assert Awakened(v, v', context);
      forall c | c in v'.summaries && c != context ensures SameSlot(v.summaries, v'.summaries, c) { }
    }
    WeightedDrop(|Universe(p)|, |Tokens(p.domain, p.contexts, v'.summaries)|, |Tokens(p.domain, p.contexts, v.summaries)|);
    SubsetCard(Dependents(v, context), Universe(p));
    UnionCard(v.queued, Dependents(v, context));
    assert Cost(p, v') <= Cost(p, v);
  }

  lemma {:induction false} WeightedDrop(weight: nat, fewer: nat, more: nat)
    requires fewer < more
    ensures Times(fewer, weight) + weight <= Times(more, weight)
  {
    if fewer < more - 1 { WeightedDrop(weight, fewer, more - 1); }
  }

  lemma BranchedGrows<S(!new)>(p: Program<S>, v: View<S>, key: WorkKey, branch: Branch<S>)
    requires ProgramLaws(p) && ValidView(p, v) && key in v.states && p.domain.valid(branch.state)
    ensures Grows(p, key, v, Branched(p, v, key, branch))
    ensures BranchHeld(p, Branched(p, v, key, branch), key, branch)
    ensures forall e | e in v.deferred && e != (key, branch.target) :: SameSlot(v.deferred, Branched(p, v, key, branch).deferred, e)
  {
    assert key in Universe(p);
    if Edge(key.rva, branch.target, DirectControl) in v.edges {
      EnqueuedGrows(p, key, v, key.rva, BranchSend(key, branch));
    } else {
      WaitingGrows(p, v, key, branch);
    }
  }

  lemma WaitingGrows<S(!new)>(p: Program<S>, v: View<S>, key: WorkKey, branch: Branch<S>)
    requires DomainLaws(p.domain) && ValidView(p, v) && key in v.states && p.domain.valid(branch.state)
    ensures Grows(p, key, v, v.(deferred := v.deferred[(key, branch.target) := branch.state]))
  {
    DeferredGrows(p, key, v, v.(deferred := v.deferred[(key, branch.target) := branch.state]));
  }

  /** A key may do what it likes with its own deferred edges. */
  lemma DeferredGrows<S(!new)>(p: Program<S>, current: WorkKey, v: View<S>, v': View<S>)
    requires DomainLaws(p.domain) && ValidView(p, v) && v' == v.(deferred := v'.deferred) && DeferredKept(current, v, v')
    requires forall e | e in v'.deferred :: e.0 in v.states && p.domain.valid(v'.deferred[e])
    ensures Grows(p, current, v, v')
  {
    assert Grows(p, current, v, v) by { GrowsReflexive(p, current, v, v); }
    assert StatesGrow(p.domain, v, v') && SummariesGrow(p.domain, v, v');
  }

  ghost predicate AllHeld<S>(p: Program<S>, v: View<S>, key: WorkKey, branches: seq<Branch<S>>) {
    forall i: nat | i < |branches| && LastOfTarget(branches, i) :: BranchHeld(p, v, key, branches[i])
  }

  lemma {:induction false} BranchedAllGrows<S(!new)>(p: Program<S>, v: View<S>, key: WorkKey, branches: seq<Branch<S>>)
    requires ProgramLaws(p) && ValidView(p, v) && key in v.states
    requires forall i | 0 <= i < |branches| :: p.domain.valid(branches[i].state)
    ensures Grows(p, key, v, BranchedAll(p, v, key, branches))
  {
    if branches == [] {
      GrowsReflexive(p, key, v, v);
    } else {
      var rest, last := branches[..|branches| - 1], branches[|branches| - 1];
      BranchedAllGrows(p, v, key, rest);
      var mid := BranchedAll(p, v, key, rest);
      BranchedGrows(p, mid, key, last);
      GrowsTransitive(p, key, v, mid, Branched(p, mid, key, last));
    }
  }

  /** Every successor that is the last of its target is held; an earlier one of the same target may be replaced. */
  lemma {:induction false} BranchedAllHolds<S(!new)>(p: Program<S>, v: View<S>, key: WorkKey, branches: seq<Branch<S>>)
    requires ProgramLaws(p) && ValidView(p, v) && key in v.states
    requires forall i | 0 <= i < |branches| :: p.domain.valid(branches[i].state)
    ensures AllHeld(p, BranchedAll(p, v, key, branches), key, branches)
  {
    if branches != [] {
      var rest, last := branches[..|branches| - 1], branches[|branches| - 1];
      BranchedAllHolds(p, v, key, rest);
      BranchedAllGrows(p, v, key, rest);
      AllHeldExtends(p, BranchedAll(p, v, key, rest), key, rest, last);
      assert rest + [last] == branches;
    }
  }

  lemma AllHeldExtends<S(!new)>(p: Program<S>, v: View<S>, key: WorkKey, rest: seq<Branch<S>>, last: Branch<S>)
    requires ProgramLaws(p) && ValidView(p, v) && key in v.states && p.domain.valid(last.state)
    requires forall i | 0 <= i < |rest| :: p.domain.valid(rest[i].state)
    requires AllHeld(p, v, key, rest)
    ensures AllHeld(p, Branched(p, v, key, last), key, rest + [last])
  {
    var all := rest + [last];
    forall i: nat | i < |all| && LastOfTarget(all, i) ensures BranchHeld(p, Branched(p, v, key, last), key, all[i]) {
      if i < |rest| {
        assert forall j | i < j < |rest| :: rest[j] == all[j];
        assert LastOfTarget(rest, i) && all[|rest|] == last;
        OtherBranchKept(p, v, key, rest[i], last);
      } else {
        BranchedGrows(p, v, key, last);
      }
    }
  }

  lemma OtherBranchKept<S(!new)>(p: Program<S>, v: View<S>, key: WorkKey, held: Branch<S>, branch: Branch<S>)
    requires ProgramLaws(p) && ValidView(p, v) && key in v.states && p.domain.valid(branch.state) && p.domain.valid(held.state)
    requires held.target != branch.target && BranchHeld(p, v, key, held)
    ensures BranchHeld(p, Branched(p, v, key, branch), key, held)
  {
    var v' := Branched(p, v, key, branch);
    BranchedGrows(p, v, key, branch);
    if Delivered(p, v, key.rva, BranchSend(key, held)) {
      DeliveredKept(p, key, v, v', key.rva, BranchSend(key, held));
    } else {
      assert SameSlot(v.deferred, v'.deferred, (key, held.target));
    }
  }

  // ----- one whole evaluation

  lemma RegisteredGrows<S(!new)>(p: Program<S>, v: View<S>, key: WorkKey, contexts: set<Context>)
    requires DomainLaws(p.domain) && ValidView(p, v) && key in v.states
    ensures Grows(p, key, v, Registered(v, key, contexts))
  {
    var v' := Registered(v, key, contexts);
    GrowsReflexive(p, key, v, v);
    assert SummariesGrow(p.domain, v, v');
    assert ValidView(p, v') by {
      forall c | c in v'.dependents ensures v'.dependents[c] <= v'.states.Keys { assert Dependents(v, c) <= v.states.Keys; }
    }
    assert StatesGrow(p.domain, v, v');
  }

  lemma ClearedGrows<S(!new)>(p: Program<S>, v: View<S>, key: WorkKey)
    requires DomainLaws(p.domain) && ValidView(p, v)
    ensures Grows(p, key, v, WithoutDeferred(v, key))
  {
    DeferredGrows(p, key, v, WithoutDeferred(v, key));
  }

  lemma OutcomeValid<S(!new)>(p: Program<S>, v: View<S>, key: WorkKey)
    requires ProgramLaws(p) && ValidView(p, v) && key in v.states
    ensures ValidOutcome(p, key, OutcomeAt(p, v, key))
    ensures key.context in p.contexts
  {
    assert ValidSummaries(p, Seen(p, v, key, v.states[key]));
    assert key in Universe(p);
  }

  lemma SentOutGrows<S(!new)>(p: Program<S>, v: View<S>, key: WorkKey)
    requires ProgramLaws(p) && ValidView(p, v) && key in v.states
    ensures Grows(p, key, v, Subscribed(p, v, key)) && Grows(p, key, Subscribed(p, v, key), SentOut(p, v, key))
    ensures forall i | 0 <= i < |OutcomeAt(p, v, key).sends| :: Delivered(p, SentOut(p, v, key), key.rva, OutcomeAt(p, v, key).sends[i])
  {
    OutcomeValid(p, v, key);
    RegisteredGrows(p, v, key, OutcomeAt(p, v, key).registers + p.consults(key, v.states[key]));
    SentAllGrows(p, key, Subscribed(p, v, key), key.rva, OutcomeAt(p, v, key).sends);
  }

  lemma BranchedOutGrows<S(!new)>(p: Program<S>, v: View<S>, key: WorkKey)
    requires ProgramLaws(p) && ValidView(p, v) && key in v.states
    requires ValidView(p, SentOut(p, v, key)) && key in SentOut(p, v, key).states
    ensures Grows(p, key, SentOut(p, v, key), BranchedOut(p, v, key))
    ensures AllHeld(p, BranchedOut(p, v, key), key, OutcomeAt(p, v, key).branches)
  {
    OutcomeValid(p, v, key);
    var sent := SentOut(p, v, key);
    var cleared := if key.rva in p.branching then WithoutDeferred(sent, key) else sent;
    ClearedGrows(p, sent, key);
    GrowsReflexive(p, key, sent, sent);
    BranchedAllGrows(p, cleared, key, OutcomeAt(p, v, key).branches);
    BranchedAllHolds(p, cleared, key, OutcomeAt(p, v, key).branches);
    GrowsTransitive(p, key, sent, cleared, BranchedOut(p, v, key));
  }

  lemma BranchedOutValid<S(!new)>(p: Program<S>, v: View<S>, key: WorkKey)
    requires ProgramLaws(p) && ValidView(p, v) && key in v.states
    ensures ValidView(p, BranchedOut(p, v, key))
  {
    SentOutGrows(p, v, key);
    BranchedOutGrows(p, v, key);
  }

  lemma BranchedAllValid<S(!new)>(p: Program<S>, v: View<S>, key: WorkKey, branches: seq<Branch<S>>)
    requires ProgramLaws(p) && ValidView(p, v) && key in v.states
    requires forall i | 0 <= i < |branches| :: p.domain.valid(branches[i].state)
    ensures ValidView(p, BranchedAll(p, v, key, branches)) && key in BranchedAll(p, v, key, branches).states
  {
    BranchedAllGrows(p, v, key, branches);
  }

  lemma EvaluatedGrowsLast<S(!new)>(p: Program<S>, v: View<S>, key: WorkKey)
    requires ProgramLaws(p) && ValidView(p, v) && key in v.states && ValidView(p, BranchedOut(p, v, key))
    ensures Grows(p, key, BranchedOut(p, v, key), Evaluated(p, v, key))
    ensures Evaluated(p, v, key).deferred == BranchedOut(p, v, key).deferred
    ensures (var s := OutcomeAt(p, v, key).summary; s.Some? ==> SummaryHeld(p, Evaluated(p, v, key), key.context, s.value))
  {
    OutcomeValid(p, v, key);
    var summary := OutcomeAt(p, v, key).summary;
    if summary.Some? {
      SummarizedGrows(p, key, BranchedOut(p, v, key), key.context, summary.value);
    } else {
      GrowsReflexive(p, key, BranchedOut(p, v, key), BranchedOut(p, v, key));
    }
  }

  lemma EvaluatedGrows<S(!new)>(p: Program<S>, v: View<S>, key: WorkKey)
    requires ProgramLaws(p) && ValidView(p, v) && key in v.states
    ensures Grows(p, key, v, Evaluated(p, v, key))
    ensures Grows(p, key, Subscribed(p, v, key), Evaluated(p, v, key))
    ensures Grows(p, key, SentOut(p, v, key), Evaluated(p, v, key))
    ensures Grows(p, key, BranchedOut(p, v, key), Evaluated(p, v, key))
  {
    SentOutGrows(p, v, key);
    BranchedOutGrows(p, v, key);
    EvaluatedGrowsLast(p, v, key);
    GrowsTransitive(p, key, SentOut(p, v, key), BranchedOut(p, v, key), Evaluated(p, v, key));
    GrowsTransitive(p, key, Subscribed(p, v, key), SentOut(p, v, key), Evaluated(p, v, key));
    GrowsTransitive(p, key, v, Subscribed(p, v, key), Evaluated(p, v, key));
  }

  lemma SendsSettled<S(!new)>(p: Program<S>, v: View<S>, key: WorkKey)
    requires ProgramLaws(p) && ValidView(p, v) && key in v.states
    ensures forall i | 0 <= i < |OutcomeAt(p, v, key).sends|
              :: Delivered(p, Evaluated(p, v, key), key.rva, OutcomeAt(p, v, key).sends[i])
  {
    var sends := OutcomeAt(p, v, key).sends;
    OutcomeValid(p, v, key);
    SentOutGrows(p, v, key);
    EvaluatedGrows(p, v, key);
    forall i | 0 <= i < |sends| ensures Delivered(p, Evaluated(p, v, key), key.rva, sends[i]) {
      DeliveredKept(p, key, SentOut(p, v, key), Evaluated(p, v, key), key.rva, sends[i]);
    }
  }

  lemma BranchesSettled<S(!new)>(p: Program<S>, v: View<S>, key: WorkKey)
    requires ProgramLaws(p) && ValidView(p, v) && key in v.states
    ensures AllHeld(p, Evaluated(p, v, key), key, OutcomeAt(p, v, key).branches)
  {
    var branches := OutcomeAt(p, v, key).branches;
    OutcomeValid(p, v, key);
    SentOutGrows(p, v, key);
    BranchedOutGrows(p, v, key);
    EvaluatedGrowsLast(p, v, key);
    forall i: nat | i < |branches| && LastOfTarget(branches, i) ensures BranchHeld(p, Evaluated(p, v, key), key, branches[i]) {
      BranchKept(p, key, BranchedOut(p, v, key), Evaluated(p, v, key), key, branches[i]);
    }
  }

  lemma CurrentKept<S(!new)>(p: Program<S>, v: View<S>, key: WorkKey)
    requires ProgramLaws(p) && ValidView(p, v) && key in v.states && key !in Evaluated(p, v, key).queued
    ensures key in Evaluated(p, v, key).states && Evaluated(p, v, key).states[key] == v.states[key]
    ensures OutcomeAt(p, Evaluated(p, v, key), key) == OutcomeAt(p, v, key)
    ensures forall c | c in OutcomeAt(p, v, key).registers + p.consults(key, v.states[key])
              :: key in Dependents(Evaluated(p, v, key), c)
  {
    var contexts := OutcomeAt(p, v, key).registers + p.consults(key, v.states[key]);
    EvaluatedGrows(p, v, key);
    RegisteredSame(p, v, key, contexts);
    SubscribedKept(p, Subscribed(p, v, key), Evaluated(p, v, key), key, contexts);
  }

  lemma RegisteredSame<S>(p: Program<S>, v: View<S>, key: WorkKey, contexts: set<Context>)
    requires key in v.states
    ensures Registered(v, key, contexts).states == v.states
    ensures OutcomeAt(p, Registered(v, key, contexts), key) == OutcomeAt(p, v, key)
    ensures forall c | c in contexts :: key in Dependents(Registered(v, key, contexts), c)
  {
    assert Seen(p, Registered(v, key, contexts), key, v.states[key]) == Seen(p, v, key, v.states[key]);
  }

  lemma SubscribedKept<S(!new)>(p: Program<S>, v: View<S>, v': View<S>, key: WorkKey, contexts: set<Context>)
    requires Grows(p, key, v, v') && key in v.states && key !in v'.queued && p.consults(key, v.states[key]) <= contexts
    requires forall c | c in contexts :: key in Dependents(v, c)
    ensures key in v'.states && v'.states[key] == v.states[key]
    ensures OutcomeAt(p, v', key) == OutcomeAt(p, v, key)
    ensures forall c | c in contexts :: key in Dependents(v', c)
  {
    OutcomeKept(p, key, v, v', key);
    forall c | c in contexts ensures key in Dependents(v', c) { assert c in v.dependents; }
  }

  /** The evaluated key is settled afterwards, unless its own evaluation put it back on the queue. */
  lemma CurrentSettled<S(!new)>(p: Program<S>, v: View<S>, key: WorkKey)
    requires ProgramLaws(p) && ValidView(p, v) && key in v.states && key !in Evaluated(p, v, key).queued
    ensures key in Evaluated(p, v, key).states && Settled(p, Evaluated(p, v, key), key)
  {
    CurrentKept(p, v, key);
    SendsSettled(p, v, key);
    BranchesSettled(p, v, key);
    SummarySettled(p, v, key);
  }

  lemma SummarySettled<S(!new)>(p: Program<S>, v: View<S>, key: WorkKey)
    requires ProgramLaws(p) && ValidView(p, v) && key in v.states
    ensures (var s := OutcomeAt(p, v, key).summary; s.Some? ==> SummaryHeld(p, Evaluated(p, v, key), key.context, s.value))
  {
    SentOutGrows(p, v, key);
    BranchedOutGrows(p, v, key);
    EvaluatedGrowsLast(p, v, key);
  }

  lemma EvaluatedKeeps<S(!new)>(p: Program<S>, v: View<S>, key: WorkKey)
    requires ProgramLaws(p) && Invariant(p, v, {key}) && key in v.states
    ensures Invariant(p, Evaluated(p, v, key), {}) && Grows(p, key, v, Evaluated(p, v, key))
  {
    var v' := Evaluated(p, v, key);
    EvaluatedGrows(p, v, key);
    forall k | k in v'.states && k !in v'.queued ensures Settled(p, v', k) {
      if k == key {
        CurrentSettled(p, v, key);
      } else {
        assert SameSlot(v.states, v'.states, k);
        SettledKept(p, key, v, v', k);
      }
    }
  }

  // ----- draining a deferred edge

  function Drained<S(==)>(p: Program<S>, v: View<S>, edge: (WorkKey, nat)): View<S>
    requires edge in v.deferred
  {
    var sent := Enqueued(p, v, edge.0.rva, BranchSend(edge.0, Branch(edge.1, v.deferred[edge])));
    sent.(deferred := sent.deferred - {edge})
  }

  /** Draining only queues a target whose stored state moves, so it never costs anything. */
  lemma DrainedGrows<S(!new)>(p: Program<S>, v: View<S>, edge: (WorkKey, nat))
    requires ProgramLaws(p) && ValidView(p, v) && edge in v.deferred
    ensures Grows(p, edge.0, v, Drained(p, v, edge))
  {
    var send := BranchSend(edge.0, Branch(edge.1, v.deferred[edge]));
    assert edge.0 in Universe(p);
    EnqueuedGrows(p, edge.0, v, edge.0.rva, send);
    var sent := Enqueued(p, v, edge.0.rva, send);
    assert edge.0 in sent.states;
    ForgottenGrows(p, sent, edge);
    GrowsTransitive(p, edge.0, v, sent, Drained(p, v, edge));
  }

  lemma ForgottenGrows<S(!new)>(p: Program<S>, v: View<S>, edge: (WorkKey, nat))
    requires DomainLaws(p.domain) && ValidView(p, v)
    ensures Grows(p, edge.0, v, v.(deferred := v.deferred - {edge}))
  {
    DeferredGrows(p, edge.0, v, v.(deferred := v.deferred - {edge}));
  }

  lemma DrainedKeeps<S(!new)>(p: Program<S>, v: View<S>, edge: (WorkKey, nat))
    requires ProgramLaws(p) && Invariant(p, v, {}) && edge in v.deferred
    ensures Invariant(p, Drained(p, v, edge), {}) && Grows(p, edge.0, v, Drained(p, v, edge))
  {
    var send := BranchSend(edge.0, Branch(edge.1, v.deferred[edge]));
    var sent, v' := Enqueued(p, v, edge.0.rva, send), Drained(p, v, edge);
    assert edge.0 in Universe(p);
    DrainedGrows(p, v, edge);
    forall k | k in v'.states && k !in v'.queued ensures Settled(p, v', k) {
      var other := WorkKey(k.rva + 1, k.context);
      EnqueuedGrows(p, other, v, edge.0.rva, send);
      assert SameSlot(v.states, sent.states, k);
      SettledKept(p, other, v, sent, k);
      DrainedSettled(p, v, edge, k);
    }
  }

  lemma DrainedSettled<S(!new)>(p: Program<S>, v: View<S>, edge: (WorkKey, nat), k: WorkKey)
    requires edge in v.deferred
    requires var send := BranchSend(edge.0, Branch(edge.1, v.deferred[edge]));
             var sent := Enqueued(p, v, edge.0.rva, send);
             && Delivered(p, sent, edge.0.rva, send) && sent.deferred == v.deferred
             && k in sent.states && Settled(p, sent, k)
    ensures k in Drained(p, v, edge).states && Settled(p, Drained(p, v, edge), k)
  {
    var sent := Enqueued(p, v, edge.0.rva, BranchSend(edge.0, Branch(edge.1, v.deferred[edge])));
    var v', o := Drained(p, v, edge), OutcomeAt(p, sent, k);
    assert Seen(p, v', k, v'.states[k]) == Seen(p, sent, k, v'.states[k]);
    forall i: nat | i < |o.branches| && LastOfTarget(o.branches, i) ensures BranchHeld(p, v', k, o.branches[i]) {
      assert BranchHeld(p, sent, k, o.branches[i]);
    }
  }

  // ----- the end of a run

  /** Every successor an outcome can produce. */
  ghost predicate Emits<S>(o: Outcome<S>, key: WorkKey, send: Send<S>) {
    send in o.sends || exists i :: 0 <= i < |o.branches| && send == BranchSend(key, o.branches[i])
  }

  /** Branch successors that share a target carry the same state. */
  ghost predicate TargetsAgree<S>(branches: seq<Branch<S>>) {
    forall i, j | 0 <= i < |branches| && 0 <= j < |branches| && branches[i].target == branches[j].target
      :: branches[i].state == branches[j].state
  }

  /** What the loop keeps of that: everything sent at once, and of the branch successors the last of each target. */
  ghost predicate Retained<S>(o: Outcome<S>, key: WorkKey, send: Send<S>) {
    || send in o.sends
    || exists i: nat :: i < |o.branches| && LastOfTarget(o.branches, i) && send == BranchSend(key, o.branches[i])
  }

  /** Nothing is lost where successors with one target carry one state. */
  lemma AgreeingRetained<S>(o: Outcome<S>, key: WorkKey, send: Send<S>)
    requires Emits(o, key, send) && TargetsAgree(o.branches)
    ensures Retained(o, key, send)
  {
    if send !in o.sends {
      var i: nat :| i < |o.branches| && send == BranchSend(key, o.branches[i]);
      var last := FindLast(o.branches, i);
      assert o.branches[last].state == o.branches[i].state;
    }
  }

  ghost predicate Finished<S>(v: View<S>) { v.queued == {} && v.deferred == map[] }

  /** When queue and deferred edges are empty, every stored key was last evaluated on its final state and final
      summaries, and every successor kept of it is covered by its target or reported as leaving the universe. */
  lemma FinishedCovers<S(!new)>(p: Program<S>, v: View<S>, key: WorkKey, send: Send<S>)
    requires Invariant(p, v, {}) && Finished(v) && key in v.states && Retained(OutcomeAt(p, v, key), key, send)
    ensures Delivered(p, v, key.rva, send)
    ensures OutcomeAt(p, v, key).summary.Some? ==> SummaryHeld(p, v, key.context, OutcomeAt(p, v, key).summary.value)
  {
    var o := OutcomeAt(p, v, key);
    assert Settled(p, v, key);
    if send in o.sends {
      var i :| 0 <= i < |o.sends| && send == o.sends[i];
    } else {
      var i: nat :| i < |o.branches| && LastOfTarget(o.branches, i) && send == BranchSend(key, o.branches[i]);
      assert BranchHeld(p, v, key, o.branches[i]);
    }
  }

  lemma {:induction false} FindLast<S>(branches: seq<Branch<S>>, i: nat) returns (last: nat)
    requires i < |branches|
    ensures i <= last < |branches| && branches[last].target == branches[i].target && LastOfTarget(branches, last)
    decreases |branches| - i
  {
    if LastOfTarget(branches, i) { return i; }
    var j :| i < j < |branches| && branches[j].target == branches[i].target;
    last := FindLast(branches, j);
  }
}
