/** The native resolver over a whole input: facts grouped by component, and a report for every node. */
module AbiDrivers {
  import opened Identities
  import opened UnionFind
  import opened AbiSolver

  predicate FactsFit(facts: seq<Fact>, n: nat) {
    forall i | 0 <= i < |facts| :: facts[i].node < n && WellFormedFact(facts[i])
  }

  predicate EqualitiesFit(equalities: seq<Equality>, n: nat) {
    forall i | 0 <= i < |equalities| :: equalities[i].left < n && equalities[i].right < n
  }

  function Links(equalities: seq<Equality>): set<Equality> { set q | q in equalities }

  lemma PairsSnoc(equalities: seq<Equality>, q: Equality)
    ensures Pairs(Links(equalities + [q])) == Pairs(Links(equalities)) + {(q.left, q.right)}
  {
    assert Links(equalities + [q]) == Links(equalities) + {q};
    assert Pairs(Links(equalities) + {q}) == Pairs(Links(equalities)) + {(q.left, q.right)};
  }

  // ----- grouping by root

  /** The facts whose node has this root, in order. */
  function FactsAt(facts: seq<Fact>, roots: map<nat, nat>, root: nat): seq<Fact> {
    if facts == [] then []
    else
      var last := facts[|facts| - 1];
      FactsAt(facts[..|facts| - 1], roots, root) + if last.node in roots && roots[last.node] == root then [last] else []
  }

  function EvidenceAt(equalities: seq<Equality>, roots: map<nat, nat>, root: nat): set<string> {
    if equalities == [] then {}
    else
      var last := equalities[|equalities| - 1];
      EvidenceAt(equalities[..|equalities| - 1], roots, root)
      + if last.left in roots && roots[last.left] == root then last.evidence else {}
  }

  lemma {:induction false} FactsAtExactly(facts: seq<Fact>, roots: map<nat, nat>, root: nat)
    ensures forall f :: f in FactsAt(facts, roots, root) <==> f in facts && f.node in roots && roots[f.node] == root
  {
    if facts != [] {
      FactsAtExactly(facts[..|facts| - 1], roots, root);
      assert facts == facts[..|facts| - 1] + [facts[|facts| - 1]];
    }
  }

  lemma {:induction false} EvidenceAtExactly(equalities: seq<Equality>, roots: map<nat, nat>, root: nat, e: string)
    ensures e in EvidenceAt(equalities, roots, root)
        <==> exists q :: q in equalities && q.left in roots && roots[q.left] == root && e in q.evidence
  {
    if equalities != [] {
      var rest, last := equalities[..|equalities| - 1], equalities[|equalities| - 1];
      EvidenceAtExactly(rest, roots, root, e);
      assert equalities == rest + [last];
      if e in EvidenceAt(equalities, roots, root) && e in EvidenceAt(rest, roots, root) {
        var q :| q in rest && q.left in roots && roots[q.left] == root && e in q.evidence;
        assert q in equalities;
      }
    }
  }

  /** The group of a node's root is the node's component. */
  lemma GroupIsComponent(facts: seq<Fact>, equalities: seq<Equality>, roots: map<nat, nat>, n: nat)
    requires Partition(roots, Pairs(Links(equalities))) && n in roots
    requires forall i | 0 <= i < |facts| :: facts[i].node in roots
    requires forall i | 0 <= i < |equalities| :: equalities[i].left in roots
    ensures Elements(FactsAt(facts, roots, roots[n])) == ComponentFacts(Elements(facts), Links(equalities), n)
    ensures EvidenceAt(equalities, roots, roots[n]) == ComponentEvidence(Links(equalities), n)
  {
    var pairs := Pairs(Links(equalities));
    FactsAtExactly(facts, roots, roots[n]);
    forall f ensures f in Elements(FactsAt(facts, roots, roots[n])) <==> f in ComponentFacts(Elements(facts), Links(equalities), n) {
      if f in facts { SameRootIffLinked(roots, pairs, f.node, n); }
    }
    forall e ensures e in EvidenceAt(equalities, roots, roots[n]) <==> e in ComponentEvidence(Links(equalities), n) {
      EvidenceAtExactly(equalities, roots, roots[n], e);
      EvidenceLinked(equalities, roots, n, e);
    }
  }

  lemma EvidenceLinked(equalities: seq<Equality>, roots: map<nat, nat>, n: nat, e: string)
    requires Partition(roots, Pairs(Links(equalities))) && n in roots
    requires forall i | 0 <= i < |equalities| :: equalities[i].left in roots
    ensures (exists q :: q in equalities && q.left in roots && roots[q.left] == roots[n] && e in q.evidence)
        <==> e in ComponentEvidence(Links(equalities), n)
  {
    forall q | q in equalities ensures roots[q.left] == roots[n] <==> Linked(Pairs(Links(equalities)), q.left, n) {
      SameRootIffLinked(roots, Pairs(Links(equalities)), q.left, n);
    }
  }

  // ----- the native resolver

  method JoinAll(uf: ArrayUnionFind, equalities: seq<Equality>)
    requires uf.Valid() && uf.joined == {} && EqualitiesFit(equalities, uf.parent.Length)
    modifies uf, uf.parent
    ensures uf.Valid() && uf.joined == Pairs(Links(equalities))
  {
    assert Pairs(Links(equalities[..0])) == {};
    for i := 0 to |equalities|
      invariant uf.Valid() && uf.joined == Pairs(Links(equalities[..i]))
    {
      PairsSnoc(equalities[..i], equalities[i]);
      assert equalities[..i + 1] == equalities[..i] + [equalities[i]];
      uf.Union(equalities[i].left, equalities[i].right);
    }
    assert equalities[..|equalities|] == equalities;
  }

  function Row<T>(rows: map<nat, T>, root: nat, empty: T): T { if root in rows then rows[root] else empty }

  method GroupFacts(uf: ArrayUnionFind, facts: seq<Fact>) returns (rows: map<nat, seq<Fact>>)
    requires uf.Valid() && FactsFit(facts, uf.parent.Length)
    modifies uf.parent
    ensures uf.Valid() && forall root: nat :: Row(rows, root, []) == FactsAt(facts, uf.roots, root)
  {
    rows := map[];
    for i := 0 to |facts|
      invariant uf.Valid() && forall root: nat :: Row(rows, root, []) == FactsAt(facts[..i], uf.roots, root)
    {
      var root := uf.Find(facts[i].node);
      assert facts[..i + 1][..i] == facts[..i];
      rows := rows[root := Row(rows, root, []) + [facts[i]]];
    }
    assert facts[..|facts|] == facts;
  }

  method GroupEvidence(uf: ArrayUnionFind, equalities: seq<Equality>) returns (rows: map<nat, set<string>>)
    requires uf.Valid() && EqualitiesFit(equalities, uf.parent.Length)
    modifies uf.parent
    ensures uf.Valid() && forall root: nat :: Row(rows, root, {}) == EvidenceAt(equalities, uf.roots, root)
  {
    rows := map[];
    for i := 0 to |equalities|
      invariant uf.Valid() && forall root: nat :: Row(rows, root, {}) == EvidenceAt(equalities[..i], uf.roots, root)
    {
      var root := uf.Find(equalities[i].left);
      assert equalities[..i + 1][..i] == equalities[..i];
      rows := rows[root := Row(rows, root, {}) + equalities[i].evidence];
    }
    assert equalities[..|equalities|] == equalities;
  }

  ghost function GroupSummary(facts: seq<Fact>, equalities: seq<Equality>, roots: map<nat, nat>, maxAlternatives: nat, root: nat)
    : Resolved
  {
    Summary(Elements(FactsAt(facts, roots, root)), EvidenceAt(equalities, roots, root), maxAlternatives)
  }

  /** Each reported root has its group's summary. */
  ghost predicate Reports(results: map<nat, Resolved>, facts: seq<Fact>, equalities: seq<Equality>, roots: map<nat, nat>,
                          maxAlternatives: nat)
  {
    forall root | root in results :: results[root] == GroupSummary(facts, equalities, roots, maxAlternatives, root)
  }

  ghost predicate Reported(results: map<nat, Resolved>, roots: map<nat, nat>, k: nat) { k in roots && roots[k] in results }

  method MergeRoots(uf: ArrayUnionFind, facts: seq<Fact>, equalities: seq<Equality>, maxAlternatives: nat,
                    factsByRoot: map<nat, seq<Fact>>, evidenceByRoot: map<nat, set<string>>)
    returns (results: map<nat, Resolved>)
    requires uf.Valid() && FactsFit(facts, uf.parent.Length)
    requires forall root: nat :: Row(factsByRoot, root, []) == FactsAt(facts, uf.roots, root)
    requires forall root: nat :: Row(evidenceByRoot, root, {}) == EvidenceAt(equalities, uf.roots, root)
    modifies uf.parent
    ensures uf.Valid() && Reports(results, facts, equalities, uf.roots, maxAlternatives)
    ensures forall j | 0 <= j < uf.parent.Length :: Reported(results, uf.roots, j)
  {
    results := map[];
    for index := 0 to uf.parent.Length
      invariant uf.Valid() && Reports(results, facts, equalities, uf.roots, maxAlternatives)
      invariant forall j | 0 <= j < index :: Reported(results, uf.roots, j)
    {
      var root := uf.Find(index);
      if root !in results {
        var r := MergeGroup(facts, equalities, uf.roots, maxAlternatives, root, factsByRoot, evidenceByRoot);
        StillReported(results, results[root := r], uf.roots, index);
        results := results[root := r];
      }
      assert Reported(results, uf.roots, index);
    }
  }

  lemma StillReported(results: map<nat, Resolved>, more: map<nat, Resolved>, roots: map<nat, nat>, n: nat)
    requires results.Keys <= more.Keys && forall j | 0 <= j < n :: Reported(results, roots, j)
    ensures forall j | 0 <= j < n :: Reported(more, roots, j)
  {
    forall j | 0 <= j < n ensures Reported(more, roots, j) { assert Reported(results, roots, j); }
  }

  method MergeGroup(facts: seq<Fact>, equalities: seq<Equality>, ghost roots: map<nat, nat>, maxAlternatives: nat, root: nat,
                    factsByRoot: map<nat, seq<Fact>>, evidenceByRoot: map<nat, set<string>>)
    returns (r: Resolved)
    requires forall i | 0 <= i < |facts| :: WellFormedFact(facts[i])
    requires forall root: nat :: Row(factsByRoot, root, []) == FactsAt(facts, roots, root)
    requires forall root: nat :: Row(evidenceByRoot, root, {}) == EvidenceAt(equalities, roots, root)
    ensures r == GroupSummary(facts, equalities, roots, maxAlternatives, root)
  {
    FactsAtExactly(facts, roots, root);
    r := NativeMerge(Row(factsByRoot, root, []), Row(evidenceByRoot, root, {}), maxAlternatives);
  }

  /** resolve: one report per node, shared by its component. */
  method Resolve(n: nat, facts: seq<Fact>, equalities: seq<Equality>, maxAlternatives: nat) returns (out: seq<Resolved>)
    requires FactsFit(facts, n) && EqualitiesFit(equalities, n)
    ensures |out| == n
    ensures forall k | 0 <= k < n :: out[k] == Resolution(Elements(facts), Links(equalities), maxAlternatives, k)
  {
    var uf := new ArrayUnionFind(n);
    JoinAll(uf, equalities);
    var factsByRoot := GroupFacts(uf, facts);
    var evidenceByRoot := GroupEvidence(uf, equalities);
    var results := MergeRoots(uf, facts, equalities, maxAlternatives, factsByRoot, evidenceByRoot);
    out := Distribute(uf, results);
    forall k | 0 <= k < n ensures out[k] == Resolution(Elements(facts), Links(equalities), maxAlternatives, k) {
      ResolvedAtRoot(n, facts, equalities, uf.roots, results, maxAlternatives, k);
    }
  }

  method Distribute(uf: ArrayUnionFind, results: map<nat, Resolved>) returns (out: seq<Resolved>)
    requires uf.Valid() && forall j | 0 <= j < uf.parent.Length :: Reported(results, uf.roots, j)
    modifies uf.parent
    ensures uf.Valid() && |out| == uf.parent.Length
    ensures forall k | 0 <= k < |out| :: Reported(results, uf.roots, k) && out[k] == results[uf.roots[k]]
  {
    out := [];
    for index := 0 to uf.parent.Length
      invariant uf.Valid() && |out| == index
      invariant forall k | 0 <= k < index :: Reported(results, uf.roots, k) && out[k] == results[uf.roots[k]]
    {
      assert Reported(results, uf.roots, index);
      var root := uf.Find(index);
      out := out + [results[root]];
    }
  }

  lemma ResolvedAtRoot(n: nat, facts: seq<Fact>, equalities: seq<Equality>, roots: map<nat, nat>, results: map<nat, Resolved>,
                       maxAlternatives: nat, k: nat)
    requires Partition(roots, Pairs(Links(equalities))) && FactsFit(facts, n) && EqualitiesFit(equalities, n) && k < n
    requires forall j | 0 <= j < n :: Reported(results, roots, j)
    requires Reports(results, facts, equalities, roots, maxAlternatives)
    ensures Reported(results, roots, k)
    ensures results[roots[k]] == Resolution(Elements(facts), Links(equalities), maxAlternatives, k)
  {
    assert Reported(results, roots, k);
    forall i | 0 <= i < |facts| ensures facts[i].node in roots { assert Reported(results, roots, facts[i].node); }
    forall i | 0 <= i < |equalities| ensures equalities[i].left in roots { assert Reported(results, roots, equalities[i].left); }
    GroupIsComponent(facts, equalities, roots, k);
  }
}
