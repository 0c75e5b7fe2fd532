/** Finite-domain equality solving over ABI facts: what one component's answer is, and the native and Python merges
    that compute it. */
module AbiSolver {
  import opened Identities
  import opened UnionFind

  datatype FactStatus = Unknown | Exact | Alternatives | Contradiction

  /** A node is a (subject, field) pair, numbered in sorted order.  Values are canonical bytes. */
  datatype Fact = Fact(node: nat, status: FactStatus, values: set<string>, evidence: set<string>, dependencies: set<string>)

  datatype Equality = Equality(left: nat, right: nat, evidence: set<string>)

  datatype Resolved = Resolved(status: FactStatus, values: set<string>, evidence: set<string>, dependencies: set<string>)

  datatype Issue = ConstraintContradiction | RequiredFactMissing | AlternativeBudgetExceeded

  /** The value count each status demands. */
  predicate WellFormedFact(f: Fact) {
    match f.status
    case Unknown => f.values == {}
    case Contradiction => f.values == {}
    case Exact => |f.values| == 1
    case Alternatives => |f.values| >= 2
  }

  // ----- the specification: one component as a set of facts

  predicate Bounds(f: Fact) { f.status.Exact? || f.status.Alternatives? }

  predicate HasBound(facts: set<Fact>) { exists f | f in facts :: Bounds(f) }

  predicate HasContradiction(facts: set<Fact>) { exists f | f in facts :: f.status.Contradiction? }

  predicate Allowed(facts: set<Fact>, v: string) { forall f | f in facts && Bounds(f) :: v in f.values }

  ghost function DomainOf(facts: set<Fact>): set<string> {
    set f, v | f in facts && Bounds(f) && v in f.values && Allowed(facts, v) :: v
  }

  ghost function EvidenceOf(facts: set<Fact>): set<string> { set f, e | f in facts && e in f.evidence :: e }

  ghost function DependenciesOf(facts: set<Fact>): set<string> { set f, d | f in facts && d in f.dependencies :: d }

  ghost predicate Broken(facts: set<Fact>) { HasContradiction(facts) || (HasBound(facts) && DomainOf(facts) == {}) }

  ghost function StatusOf(facts: set<Fact>, maxAlternatives: nat): FactStatus {
    if Broken(facts) then Contradiction
    else if !HasBound(facts) || |DomainOf(facts)| > maxAlternatives then Unknown
    else if |DomainOf(facts)| == 1 then Exact
    else Alternatives
  }

  ghost function Summary(facts: set<Fact>, evidence: set<string>, maxAlternatives: nat): Resolved {
    var status := StatusOf(facts, maxAlternatives);
    Resolved(status, if status.Exact? || status.Alternatives? then DomainOf(facts) else {},
             evidence + EvidenceOf(facts), DependenciesOf(facts))
  }

  ghost function IssueOf(facts: set<Fact>, maxAlternatives: nat): Option<Issue> {
    if Broken(facts) then Some(ConstraintContradiction)
    else if !HasBound(facts) then Some(RequiredFactMissing)
    else if |DomainOf(facts)| > maxAlternatives then Some(AlternativeBudgetExceeded)
    else None
  }

  function Pairs(equalities: set<Equality>): set<(nat, nat)> { set q | q in equalities :: (q.left, q.right) }

  ghost function ComponentFacts(facts: set<Fact>, equalities: set<Equality>, n: nat): set<Fact> {
    set f | f in facts && Linked(Pairs(equalities), f.node, n)
  }

  ghost function ComponentEvidence(equalities: set<Equality>, n: nat): set<string> {
    set q, e | q in equalities && Linked(Pairs(equalities), q.left, n) && e in q.evidence :: e
  }

  /** What every route must report for a node; sets of facts and equalities, so no order can matter. */
  ghost function Resolution(facts: set<Fact>, equalities: set<Equality>, maxAlternatives: nat, n: nat): Resolved {
    Summary(ComponentFacts(facts, equalities, n), ComponentEvidence(equalities, n), maxAlternatives)
  }

  // ----- what the specification means

  ghost predicate Satisfies(a: nat -> string, facts: set<Fact>, equalities: set<Equality>, n: nat) {
    && (forall f | f in facts && Linked(Pairs(equalities), f.node, n) && Bounds(f) :: a(f.node) in f.values)
    && (forall q | q in equalities && Linked(Pairs(equalities), q.left, n) :: a(q.left) == a(q.right))
  }

  ghost predicate Attainable(facts: set<Fact>, equalities: set<Equality>, n: nat, v: string) {
    exists a: nat -> string :: Satisfies(a, facts, equalities, n) && a(n) == v
  }

  lemma {:induction false} WalkConstant(a: nat -> string, facts: set<Fact>, equalities: set<Equality>, n: nat, path: seq<nat>,
                                        from: nat, to: nat)
    requires Satisfies(a, facts, equalities, n) && Walk(Pairs(equalities), path, from, to)
    requires Linked(Pairs(equalities), from, n)
    ensures a(from) == a(to)
  {
    var pairs := Pairs(equalities);
    if |path| > 1 {
      var next := path[1];
      assert Joined(pairs, path[0], path[0 + 1]);
      LinkedPair(pairs, next, from);
      LinkedTransitive(pairs, next, from, n);
      var q :| q in equalities && ((q.left == from && q.right == next) || (q.left == next && q.right == from));
      forall i | 0 <= i < |path[1..]| - 1 ensures Joined(pairs, path[1..][i], path[1..][i + 1]) {
        assert Joined(pairs, path[i + 1], path[i + 1 + 1]);
      }
      WalkConstant(a, facts, equalities, n, path[1..], next, to);
    }
  }

  /** A value can be taken by a satisfying assignment exactly when every bounding fact of the component allows it. */
  lemma AttainableIffAllowed(facts: set<Fact>, equalities: set<Equality>, n: nat, v: string)
    ensures Attainable(facts, equalities, n, v) <==> Allowed(ComponentFacts(facts, equalities, n), v)
  {
    if Attainable(facts, equalities, n, v) {
      var a: nat -> string :| Satisfies(a, facts, equalities, n) && a(n) == v;
      forall f | f in ComponentFacts(facts, equalities, n) && Bounds(f) ensures v in f.values {
        var path :| Walk(Pairs(equalities), path, f.node, n);
        WalkConstant(a, facts, equalities, n, path, f.node, n);
      }
    }
    if Allowed(ComponentFacts(facts, equalities, n), v) {
      var a := (k: nat) => v;
      forall f | f in facts && Linked(Pairs(equalities), f.node, n) && Bounds(f) ensures a(f.node) in f.values {
        assert f in ComponentFacts(facts, equalities, n);
      }
      assert Satisfies(a, facts, equalities, n);
    }
  }

  lemma DomainIsAllowed(facts: set<Fact>, v: string)
    requires HasBound(facts)
    ensures v in DomainOf(facts) <==> Allowed(facts, v)
  {
  }

  /** A node is reported contradictory exactly when its component holds a contradiction fact or has no satisfying
      assignment; a reported list is exactly the values the assignments can take; and the answer is unknown exactly
      when nothing bounds the component or more than the allowed number of values remain. */
  lemma ResolutionExact(facts: set<Fact>, equalities: set<Equality>, maxAlternatives: nat, n: nat)
    ensures var r, c := Resolution(facts, equalities, maxAlternatives, n), ComponentFacts(facts, equalities, n);
            && (r.status.Contradiction? <==> HasContradiction(c) || forall v :: !Attainable(facts, equalities, n, v))
            && (r.status.Exact? || r.status.Alternatives? ==>
                  forall v :: v in r.values <==> Attainable(facts, equalities, n, v))
            && (r.status.Unknown? && HasBound(c) ==> |DomainOf(c)| > maxAlternatives)
            && (HasBound(c) ==> forall v :: v in DomainOf(c) <==> Attainable(facts, equalities, n, v))
            && (!HasBound(c) ==> forall v :: Attainable(facts, equalities, n, v))
  {
    var c := ComponentFacts(facts, equalities, n);
    forall v: string ensures Attainable(facts, equalities, n, v) <==> Allowed(c, v) {
      AttainableIffAllowed(facts, equalities, n, v);
    }
    if HasBound(c) {
      forall v: string ensures v in DomainOf(c) <==> Allowed(c, v) { DomainIsAllowed(c, v); }
    } else {
      assert Allowed(c, "");
    }
  }

  /** These are the values that assignments can give the node. */
  ghost predicate AttainableSet(facts: set<Fact>, equalities: set<Equality>, n: nat, values: set<string>) {
    forall v :: v in values <==> Attainable(facts, equalities, n, v)
  }

  /** Some fact of the component limits its values. */
  ghost predicate IsBounded(facts: set<Fact>, equalities: set<Equality>, n: nat) {
    exists f | f in facts && Linked(Pairs(equalities), f.node, n) :: f.status.Exact? || f.status.Alternatives?
  }

  ghost predicate IsRefuted(facts: set<Fact>, equalities: set<Equality>, n: nat) {
    exists f | f in facts && Linked(Pairs(equalities), f.node, n) :: f.status.Contradiction?
  }

  lemma BoundedHasSet(facts: set<Fact>, equalities: set<Equality>, n: nat)
    ensures IsBounded(facts, equalities, n) <==> HasBound(ComponentFacts(facts, equalities, n))
    ensures IsRefuted(facts, equalities, n) <==> HasContradiction(ComponentFacts(facts, equalities, n))
    ensures IsBounded(facts, equalities, n) ==>
              AttainableSet(facts, equalities, n, DomainOf(ComponentFacts(facts, equalities, n)))
  {
    var c := ComponentFacts(facts, equalities, n);
    forall f | f in facts && Linked(Pairs(equalities), f.node, n) ensures f in c { }
    if HasBound(c) {
      forall v: string ensures v in DomainOf(c) <==> Attainable(facts, equalities, n, v) {
        DomainIsAllowed(c, v);
        AttainableIffAllowed(facts, equalities, n, v);
      }
    }
  }

  lemma OneSet(facts: set<Fact>, equalities: set<Equality>, n: nat, a: set<string>, b: set<string>)
    requires AttainableSet(facts, equalities, n, a) && AttainableSet(facts, equalities, n, b)
    ensures a == b
  {
  }

  /** The status and the issue code of a bounded component follow from the number of attainable values alone, and an
      unbounded one is unknown unless a fact refutes it. */
  lemma StatusExactly(facts: set<Fact>, equalities: set<Equality>, maxAlternatives: nat, n: nat, values: set<string>)
    requires IsBounded(facts, equalities, n) ==> AttainableSet(facts, equalities, n, values)
    ensures var r, issue := Resolution(facts, equalities, maxAlternatives, n),
                            IssueOf(ComponentFacts(facts, equalities, n), maxAlternatives);
            if IsRefuted(facts, equalities, n) || (IsBounded(facts, equalities, n) && values == {}) then
              r.status == Contradiction && r.values == {} && issue == Some(ConstraintContradiction)
            else if !IsBounded(facts, equalities, n) then
              r.status == Unknown && r.values == {} && issue == Some(RequiredFactMissing)
            else if |values| > maxAlternatives then
              r.status == Unknown && r.values == {} && issue == Some(AlternativeBudgetExceeded)
            else
              r.values == values && issue == None && r.status == if |values| == 1 then Exact else Alternatives
  {
    BoundedHasSet(facts, equalities, n);
    if IsBounded(facts, equalities, n) {
      OneSet(facts, equalities, n, values, DomainOf(ComponentFacts(facts, equalities, n)));
    }
  }

  /** A report carries the evidence of every fact and equality of the component and the dependencies of its facts. */
  lemma EvidenceExactly(facts: set<Fact>, equalities: set<Equality>, maxAlternatives: nat, n: nat, e: string)
    ensures e in Resolution(facts, equalities, maxAlternatives, n).evidence
        <==> (exists f | f in facts && Linked(Pairs(equalities), f.node, n) :: e in f.evidence)
             || (exists q | q in equalities && Linked(Pairs(equalities), q.left, n) :: e in q.evidence)
    ensures e in Resolution(facts, equalities, maxAlternatives, n).dependencies
        <==> exists f | f in facts && Linked(Pairs(equalities), f.node, n) :: e in f.dependencies
  {
    var c := ComponentFacts(facts, equalities, n);
    forall f | f in facts && Linked(Pairs(equalities), f.node, n) ensures f in c { }
  }

  /** A fact that bounds nothing and carries no evidence changes no answer. */
  lemma UnknownIsNeutral(facts: set<Fact>, blanks: set<Fact>, evidence: set<string>, maxAlternatives: nat)
    requires forall f | f in blanks :: f.status.Unknown? && f.evidence == {} && f.dependencies == {}
    ensures Summary(facts + blanks, evidence, maxAlternatives) == Summary(facts, evidence, maxAlternatives)
  {
    var all := facts + blanks;
    assert forall f | f in all && Bounds(f) :: f in facts;
    assert HasBound(all) <==> HasBound(facts);
    forall v: string ensures Allowed(all, v) <==> Allowed(facts, v) { }
    assert DomainOf(all) == DomainOf(facts);
    assert EvidenceOf(all) == EvidenceOf(facts);
    assert DependenciesOf(all) == DependenciesOf(facts);
  }

  // ----- folding facts one at a time

  function Elements(facts: seq<Fact>): set<Fact> { set f | f in facts }

  lemma AddFact(facts: set<Fact>, f: Fact)
    ensures HasBound(facts + {f}) <==> HasBound(facts) || Bounds(f)
    ensures DomainOf(facts + {f})
         == if !Bounds(f) then DomainOf(facts) else if HasBound(facts) then DomainOf(facts) * f.values else f.values
    ensures HasContradiction(facts + {f}) <==> HasContradiction(facts) || f.status.Contradiction?
    ensures EvidenceOf(facts + {f}) == EvidenceOf(facts) + f.evidence
    ensures DependenciesOf(facts + {f}) == DependenciesOf(facts) + f.dependencies
  {
    var more := facts + {f};
    assert f in more;
    assert HasBound(more) <==> HasBound(facts) || Bounds(f) by {
      if HasBound(facts) {
        var g :| g in facts && Bounds(g);
        assert g in more;
      }
    }
    assert HasContradiction(more) <==> HasContradiction(facts) || f.status.Contradiction? by {
      if HasContradiction(facts) {
        var g :| g in facts && g.status.Contradiction?;
        assert g in more;
      }
    }
    forall v: string ensures Allowed(more, v) <==> Allowed(facts, v) && (Bounds(f) ==> v in f.values) {
      if Allowed(more, v) { assert forall g | g in facts && Bounds(g) :: g in more; }
    }
    AddDomain(facts, f);
  }

  lemma AddDomain(facts: set<Fact>, f: Fact)
    requires forall v: string :: Allowed(facts + {f}, v) <==> Allowed(facts, v) && (Bounds(f) ==> v in f.values)
    ensures DomainOf(facts + {f})
         == if !Bounds(f) then DomainOf(facts) else if HasBound(facts) then DomainOf(facts) * f.values else f.values
  {
    var more := facts + {f};
    forall v: string ensures v in DomainOf(more) <==> HasBound(more) && Allowed(more, v) {
      if HasBound(more) { DomainIsAllowed(more, v); }
    }
    forall v: string ensures v in DomainOf(facts) <==> HasBound(facts) && Allowed(facts, v) {
      if HasBound(facts) { DomainIsAllowed(facts, v); }
    }
    if Bounds(f) { assert f in more; }
    if HasBound(facts) {
      var g :| g in facts && Bounds(g);
      assert g in more;
    }
  }

  /** The running state of a merge. */
  datatype Merge = Merge(possible: Option<set<string>>, contradiction: bool, evidence: set<string>, dependencies: set<string>)

  ghost predicate Merges(m: Merge, facts: set<Fact>, evidence: set<string>) {
    && m.possible == (if HasBound(facts) then Some(DomainOf(facts)) else None)
    && (m.contradiction <==> Broken(facts))
    && m.evidence == evidence + EvidenceOf(facts)
    && m.dependencies == DependenciesOf(facts)
  }

  lemma EmptyMerge(evidence: set<string>)
    ensures Merges(Merge(None, false, evidence, {}), {}, evidence)
  {
  }

  /** One fact as the native resolver takes it. */
  function NativeAbsorb(m: Merge, f: Fact): Merge {
    var evidence, dependencies := m.evidence + f.evidence, m.dependencies + f.dependencies;
    match f.status
    case Unknown => Merge(m.possible, m.contradiction, evidence, dependencies)
    case Contradiction => Merge(m.possible, true, evidence, dependencies)
    case _ =>
      var possible := if m.possible.Some? then m.possible.value * f.values else f.values;
      Merge(Some(possible), m.contradiction || possible == {}, evidence, dependencies)
  }

  /** _value_keys */
  function ValueKeys(f: Fact): Option<set<string>> {
    if f.status.Unknown? then None else if f.status.Contradiction? then Some({}) else Some(f.values)
  }

  /** One fact as the Python resolver takes it. */
  function PythonAbsorb(m: Merge, f: Fact): Merge {
    var evidence, dependencies := m.evidence + f.evidence, m.dependencies + f.dependencies;
    match ValueKeys(f)
    case None => Merge(m.possible, m.contradiction, evidence, dependencies)
    case Some(values) =>
      if values == {} then Merge(m.possible, true, evidence, dependencies)
      else
        var possible := if m.possible.Some? then m.possible.value * values else values;
        Merge(Some(possible), m.contradiction || possible == {}, evidence, dependencies)
  }

  lemma AbsorbsAgree(m: Merge, f: Fact)
    requires WellFormedFact(f)
    ensures NativeAbsorb(m, f) == PythonAbsorb(m, f)
  {
  }

  lemma AbsorbMerges(m: Merge, facts: set<Fact>, evidence: set<string>, f: Fact)
    requires Merges(m, facts, evidence) && WellFormedFact(f)
    ensures Merges(NativeAbsorb(m, f), facts + {f}, evidence)
  {
    AddFact(facts, f);
    assert HasBound(facts) && DomainOf(facts) == {} ==> DomainOf(facts + {f}) == {};
  }

  lemma ElementsSnoc(facts: seq<Fact>, f: Fact)
    ensures Elements(facts + [f]) == Elements(facts) + {f}
  {
  }

  /** The merge of one component, from its facts to its report. */
  method NativeMerge(facts: seq<Fact>, evidence: set<string>, maxAlternatives: nat) returns (r: Resolved)
    requires forall i | 0 <= i < |facts| :: WellFormedFact(facts[i])
    ensures r == Summary(Elements(facts), evidence, maxAlternatives)
  {
    var m := Merge(None, false, evidence, {});
    EmptyMerge(evidence);
    assert Elements(facts[..0]) == {};
    for i := 0 to |facts|
      invariant Merges(m, Elements(facts[..i]), evidence)
    {
      AbsorbMerges(m, Elements(facts[..i]), evidence, facts[i]);
      ElementsSnoc(facts[..i], facts[i]);
      assert facts[..i + 1] == facts[..i] + [facts[i]];
      m := NativeAbsorb(m, facts[i]);
    }
    assert facts[..|facts|] == facts;
    if m.contradiction {
      r := Resolved(Contradiction, {}, m.evidence, m.dependencies);
    } else if m.possible.Some? {
      var values := m.possible.value;
      if |values| > maxAlternatives {
        r := Resolved(Unknown, {}, m.evidence, m.dependencies);
      } else {
        r := Resolved(if |values| == 1 then Exact else Alternatives, values, m.evidence, m.dependencies);
      }
    } else {
      r := Resolved(Unknown, {}, m.evidence, m.dependencies);
    }
  }

  /** _merge_component over the facts of all members, with the issue code. */
  method PythonMerge(facts: seq<Fact>, evidence: set<string>, maxAlternatives: nat) returns (r: Resolved, issue: Option<Issue>)
    requires forall i | 0 <= i < |facts| :: WellFormedFact(facts[i])
    ensures r == Summary(Elements(facts), evidence, maxAlternatives)
    ensures issue == IssueOf(Elements(facts), maxAlternatives)
  {
    var m := Merge(None, false, evidence, {});
    EmptyMerge(evidence);
    assert Elements(facts[..0]) == {};
    for i := 0 to |facts|
      invariant Merges(m, Elements(facts[..i]), evidence)
    {
      AbsorbMerges(m, Elements(facts[..i]), evidence, facts[i]);
      AbsorbsAgree(m, facts[i]);
      ElementsSnoc(facts[..i], facts[i]);
      assert facts[..i + 1] == facts[..i] + [facts[i]];
      m := PythonAbsorb(m, facts[i]);
    }
    assert facts[..|facts|] == facts;
    if m.contradiction {
      return Resolved(Contradiction, {}, m.evidence, m.dependencies), Some(ConstraintContradiction);
    }
    if m.possible.None? {
      return Resolved(Unknown, {}, m.evidence, m.dependencies), Some(RequiredFactMissing);
    }
    var values := m.possible.value;
    if |values| > maxAlternatives {
      return Resolved(Unknown, {}, m.evidence, m.dependencies), Some(AlternativeBudgetExceeded);
    }
    r, issue := Resolved(if |values| == 1 then Exact else Alternatives, values, m.evidence, m.dependencies), None;
  }
}
