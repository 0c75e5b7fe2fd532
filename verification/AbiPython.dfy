/** The Python solver's driver: components in dictionary order, native facts where they decide, its own merge
    where they do not. */
module AbiPython {
  import opened Identities
  import opened UnionFind
  import opened AbiSolver
  import opened AbiDrivers

  datatype Solution = Solution(resolved: map<nat, Resolved>, issues: map<nat, Issue>)

  // ----- keys in dictionary order

  function AddKeys(order: seq<nat>, keys: seq<nat>): seq<nat> {
    if keys == [] then order else AddKey(AddKeys(order, keys[..|keys| - 1]), keys[|keys| - 1])
  }

  function Endpoints(equalities: seq<Equality>): seq<nat> {
    if equalities == [] then []
    else Endpoints(equalities[..|equalities| - 1]) + [equalities[|equalities| - 1].left, equalities[|equalities| - 1].right]
  }

  function Nodes(facts: seq<Fact>): seq<nat> { seq(|facts|, i requires 0 <= i < |facts| => facts[i].node) }

  /** The dictionary of the union-find once everything is in it. */
  function KeyOrder(equalities: seq<Equality>, required: seq<nat>, facts: seq<Fact>): seq<nat> {
    AddKeys(AddKeys(AddKeys([], Endpoints(equalities)), required), Nodes(facts))
  }

  lemma {:induction false} AddKeysHolds(order: seq<nat>, keys: seq<nat>)
    ensures forall k :: k in AddKeys(order, keys) <==> k in order || k in keys
  {
    if keys != [] {
      AddKeysHolds(order, keys[..|keys| - 1]);
      assert keys == keys[..|keys| - 1] + [keys[|keys| - 1]];
    }
  }

  method JoinEach(uf: DictUnionFind, equalities: seq<Equality>)
    requires uf.Valid() && uf.joined == {} && uf.order == []
    modifies uf
    ensures uf.Valid() && uf.joined == Pairs(Links(equalities)) && uf.order == AddKeys([], Endpoints(equalities))
  {
    assert Pairs(Links(equalities[..0])) == {};
    for i := 0 to |equalities|
      invariant uf.Valid() && uf.joined == Pairs(Links(equalities[..i])) && uf.order == AddKeys([], Endpoints(equalities[..i]))
    {
      PairsSnoc(equalities[..i], equalities[i]);
      AddTwo([], Endpoints(equalities[..i]), equalities[i].left, equalities[i].right);
      assert equalities[..i + 1] == equalities[..i] + [equalities[i]];
      uf.Union(equalities[i].left, equalities[i].right);
    }
    assert equalities[..|equalities|] == equalities;
  }

  lemma AddTwo(order: seq<nat>, keys: seq<nat>, left: nat, right: nat)
    ensures AddKeys(order, keys + [left, right]) == AddKey(AddKey(AddKeys(order, keys), left), right)
  {
    assert (keys + [left, right])[..|keys| + 1] == keys + [left];
    assert (keys + [left])[..|keys|] == keys;
  }

  method AddEach(uf: DictUnionFind, keys: seq<nat>)
    requires uf.Valid()
    modifies uf`parent, uf`order, uf`roots
    ensures uf.Valid() && uf.order == AddKeys(old(uf.order), keys)
  {
    for i := 0 to |keys|
      invariant uf.Valid() && uf.order == AddKeys(old(uf.order), keys[..i])
    {
      assert keys[..i + 1][..i] == keys[..i];
      uf.Add(keys[i]);
    }
    assert keys[..|keys|] == keys;
  }

  // ----- components

  /** The keys with this root, in order. */
  function KeysAt(keys: seq<nat>, roots: map<nat, nat>, root: nat): seq<nat> {
    if keys == [] then []
    else
      var last := keys[|keys| - 1];
      KeysAt(keys[..|keys| - 1], roots, root) + if last in roots && roots[last] == root then [last] else []
  }

  lemma {:induction false} KeysAtExactly(keys: seq<nat>, roots: map<nat, nat>, root: nat)
    ensures forall k :: k in KeysAt(keys, roots, root) <==> k in keys && k in roots && roots[k] == root
  {
    if keys != [] {
      KeysAtExactly(keys[..|keys| - 1], roots, root);
      assert keys == keys[..|keys| - 1] + [keys[|keys| - 1]];
    }
  }

  /** No earlier key shares the component of key i. */
  ghost predicate FirstOfComponent(keys: seq<nat>, roots: map<nat, nat>, i: nat) {
    i < |keys| && keys[i] in roots && forall j | 0 <= j < i && keys[j] in roots :: roots[keys[j]] != roots[keys[i]]
  }

  lemma {:induction false} FirstKey(keys: seq<nat>, roots: map<nat, nat>, root: nat) returns (i: nat)
    requires KeysAt(keys, roots, root) != []
    ensures FirstOfComponent(keys, roots, i) && roots[keys[i]] == root && KeysAt(keys, roots, root)[0] == keys[i]
  {
    var rest := keys[..|keys| - 1];
    if KeysAt(rest, roots, root) != [] {
      i := FirstKey(rest, roots, root);
      assert forall j | 0 <= j < i :: rest[j] == keys[j];
    } else {
      i := |keys| - 1;
      KeysAtExactly(rest, roots, root);
      forall j | 0 <= j < i && keys[j] in roots ensures roots[keys[j]] != root {
        assert keys[j] == rest[j] && rest[j] in rest;
      }
    }
  }

  method GroupKeys(uf: DictUnionFind) returns (rows: map<nat, seq<nat>>)
    requires uf.Valid()
    modifies uf`parent
    ensures uf.Valid()
    ensures forall root: nat :: Row(rows, root, []) == KeysAt(uf.order, uf.roots, root)
    ensures forall root | root in rows :: rows[root] != []
  {
    rows := map[];
    for i := 0 to |uf.order|
      invariant uf.Valid() && forall root: nat :: Row(rows, root, []) == KeysAt(uf.order[..i], uf.roots, root)
      invariant forall root | root in rows :: rows[root] != []
    {
      assert uf.order[i] in uf.order;
      var root := uf.FindKnown(uf.order[i]);
      assert uf.order[..i + 1][..i] == uf.order[..i];
      rows := rows[root := Row(rows, root, []) + [uf.order[i]]];
    }
    assert uf.order[..|uf.order|] == uf.order;
  }

  method GroupEqualityEvidence(uf: DictUnionFind, equalities: seq<Equality>) returns (rows: map<nat, set<string>>)
    requires uf.Valid() && forall i | 0 <= i < |equalities| :: equalities[i].left in uf.parent
    modifies uf`parent
    ensures uf.Valid() && forall root: nat :: Row(rows, root, {}) == EvidenceAt(equalities, uf.roots, root)
  {
    rows := map[];
    for i := 0 to |equalities|
      invariant uf.Valid() && forall root: nat :: Row(rows, root, {}) == EvidenceAt(equalities[..i], uf.roots, root)
    {
      assert equalities[i].left in uf.roots;
      var root := uf.FindKnown(equalities[i].left);
      assert equalities[..i + 1][..i] == equalities[..i];
      rows := rows[root := Row(rows, root, {}) + equalities[i].evidence];
    }
    assert equalities[..|equalities|] == equalities;
  }

  /** supplied: the facts of one node, in order. */
  function FactsOf(facts: seq<Fact>, node: nat): seq<Fact> {
    if facts == [] then []
    else FactsOf(facts[..|facts| - 1], node) + if facts[|facts| - 1].node == node then [facts[|facts| - 1]] else []
  }

  lemma {:induction false} FactsOfExactly(facts: seq<Fact>, node: nat)
    ensures forall f :: f in FactsOf(facts, node) <==> f in facts && f.node == node
  {
    if facts != [] {
      FactsOfExactly(facts[..|facts| - 1], node);
      assert facts == facts[..|facts| - 1] + [facts[|facts| - 1]];
    }
  }

  method Supply(facts: seq<Fact>) returns (supplied: map<nat, seq<Fact>>)
    ensures forall node: nat :: Row(supplied, node, []) == FactsOf(facts, node)
  {
    supplied := map[];
    for i := 0 to |facts|
      invariant forall node: nat :: Row(supplied, node, []) == FactsOf(facts[..i], node)
    {
      assert facts[..i + 1][..i] == facts[..i];
      supplied := supplied[facts[i].node := Row(supplied, facts[i].node, []) + [facts[i]]];
    }
    assert facts[..|facts|] == facts;
  }

  /** The facts of all members, member by member. */
  function MemberFacts(members: seq<nat>, facts: seq<Fact>): seq<Fact> {
    if members == [] then [] else MemberFacts(members[..|members| - 1], facts) + FactsOf(facts, members[|members| - 1])
  }

  lemma {:induction false} MemberFactsExactly(members: seq<nat>, facts: seq<Fact>)
    ensures forall f :: f in MemberFacts(members, facts) <==> f in facts && f.node in members
  {
    if members != [] {
      MemberFactsExactly(members[..|members| - 1], facts);
      FactsOfExactly(facts, members[|members| - 1]);
      assert members == members[..|members| - 1] + [members[|members| - 1]];
    }
  }

  method CollectFacts(members: seq<nat>, supplied: map<nat, seq<Fact>>, ghost facts: seq<Fact>) returns (all: seq<Fact>)
    requires forall node: nat :: Row(supplied, node, []) == FactsOf(facts, node)
    ensures all == MemberFacts(members, facts)
  {
    all := [];
    for i := 0 to |members|
      invariant all == MemberFacts(members[..i], facts)
    {
      assert members[..i + 1][..i] == members[..i];
      all := all + Row(supplied, members[i], []);
    }
    assert members[..|members|] == members;
  }

  // ----- what the driver owes for one key

  ghost function IssueAt(facts: seq<Fact>, equalities: seq<Equality>, maxAlternatives: nat, k: nat): Option<Issue> {
    IssueOf(ComponentFacts(Elements(facts), Links(equalities), k), maxAlternatives)
  }

  ghost function ResolutionAt(facts: seq<Fact>, equalities: seq<Equality>, maxAlternatives: nat, k: nat): Resolved {
    Resolution(Elements(facts), Links(equalities), maxAlternatives, k)
  }

  /** The whole input of one call. */
  datatype Input = Input(n: nat, facts: seq<Fact>, equalities: seq<Equality>, required: seq<nat>, maxAlternatives: nat)

  predicate Fits(input: Input) {
    && FactsFit(input.facts, input.n) && EqualitiesFit(input.equalities, input.n)
    && forall i | 0 <= i < |input.required| :: input.required[i] < input.n
  }

  ghost function Answer(input: Input, k: nat): Resolved {
    ResolutionAt(input.facts, input.equalities, input.maxAlternatives, k)
  }

  ghost function AnswerIssue(input: Input, k: nat): Option<Issue> {
    IssueAt(input.facts, input.equalities, input.maxAlternatives, k)
  }

  /** The union-find as the driver leaves it. */
  ghost predicate Grouped(input: Input, keys: seq<nat>, roots: map<nat, nat>) {
    && Partition(roots, Pairs(Links(input.equalities)))
    && (forall k :: k in keys <==> k in roots)
    && keys == KeyOrder(input.equalities, input.required, input.facts)
  }

  lemma {:induction false} EndpointsHold(equalities: seq<Equality>, i: nat)
    requires i < |equalities|
    ensures equalities[i].left in Endpoints(equalities) && equalities[i].right in Endpoints(equalities)
  {
    if i < |equalities| - 1 { EndpointsHold(equalities[..|equalities| - 1], i); }
  }

  lemma KeysHold(input: Input, keys: seq<nat>, roots: map<nat, nat>)
    requires Grouped(input, keys, roots)
    ensures forall i | 0 <= i < |input.facts| :: input.facts[i].node in roots
    ensures forall i | 0 <= i < |input.equalities| :: input.equalities[i].left in roots
    ensures forall i | 0 <= i < |input.required| :: input.required[i] in roots
  {
    var ends := AddKeys([], Endpoints(input.equalities));
    AddKeysHolds([], Endpoints(input.equalities));
    AddKeysHolds(ends, input.required);
    AddKeysHolds(AddKeys(ends, input.required), Nodes(input.facts));
    forall i | 0 <= i < |input.facts| ensures input.facts[i].node in roots {
      assert Nodes(input.facts)[i] == input.facts[i].node;
      assert input.facts[i].node in keys;
    }
    forall i | 0 <= i < |input.equalities| ensures input.equalities[i].left in roots {
      EndpointsHold(input.equalities, i);
      assert input.equalities[i].left in keys;
    }
    forall i | 0 <= i < |input.required| ensures input.required[i] in roots { assert input.required[i] in keys; }
  }

  /** The facts gathered from a component's members are the facts of the component of each member. */
  lemma MembersAreComponent(input: Input, keys: seq<nat>, roots: map<nat, nat>, root: nat, k: nat)
    requires Grouped(input, keys, roots) && k in KeysAt(keys, roots, root)
    ensures Elements(MemberFacts(KeysAt(keys, roots, root), input.facts))
         == ComponentFacts(Elements(input.facts), Links(input.equalities), k)
    ensures EvidenceAt(input.equalities, roots, root) == ComponentEvidence(Links(input.equalities), k)
  {
    KeysHold(input, keys, roots);
    KeysAtExactly(keys, roots, root);
    var members := KeysAt(keys, roots, root);
    MemberFactsExactly(members, input.facts);
    GroupIsComponent(input.facts, input.equalities, roots, k);
    FactsAtExactly(input.facts, roots, root);
    assert Elements(MemberFacts(members, input.facts)) == Elements(FactsAt(input.facts, roots, root));
  }

  /** Members of one component share their answer. */
  lemma MembersAgree(input: Input, keys: seq<nat>, roots: map<nat, nat>, root: nat, k: nat, k': nat)
    requires Grouped(input, keys, roots) && k in KeysAt(keys, roots, root) && k' in KeysAt(keys, roots, root)
    ensures Answer(input, k) == Answer(input, k') && AnswerIssue(input, k) == AnswerIssue(input, k')
  {
    MembersAreComponent(input, keys, roots, root, k);
    MembersAreComponent(input, keys, roots, root, k');
  }

  /** A component decided by the native resolver raises no issue. */
  lemma DecidedHasNoIssue(input: Input, k: nat)
    ensures AnswerIssue(input, k).None? <==> Answer(input, k).status.Exact? || Answer(input, k).status.Alternatives?
  {
  }

  // ----- the native facts

  function Blanks(required: seq<nat>): seq<Fact> {
    seq(|required|, i requires 0 <= i < |required| => Fact(required[i], Unknown, {}, {}, {}))
  }

  /** Blank facts for required fields change no answer. */
  lemma BlanksAreNeutral(input: Input, k: nat)
    ensures Resolution(Elements(input.facts + Blanks(input.required)), Links(input.equalities), input.maxAlternatives, k)
         == Answer(input, k)
  {
    var blanks := Elements(Blanks(input.required));
    var all, links := Elements(input.facts + Blanks(input.required)), Links(input.equalities);
    assert all == Elements(input.facts) + blanks;
    var some := ComponentFacts(blanks, links, k);
    assert ComponentFacts(all, links, k) == ComponentFacts(Elements(input.facts), links, k) + some;
    UnknownIsNeutral(ComponentFacts(Elements(input.facts), links, k), some, ComponentEvidence(links, k), input.maxAlternatives);
  }

  /** resolve_facts: required fields only, each with the native answer. */
  method NativeFacts(input: Input) returns (rows: map<nat, Resolved>)
    requires Fits(input)
    ensures rows.Keys == set k | k in input.required
    ensures forall k | k in rows :: rows[k] == Answer(input, k)
  {
    var raw := Resolve(input.n, input.facts + Blanks(input.required), input.equalities, input.maxAlternatives);
    assert forall k | k in input.required :: k < input.n;
    rows := map k | k in input.required :: raw[k];
    forall k | k in rows ensures rows[k] == Answer(input, k) { BlanksAreNeutral(input, k); }
  }

  // ----- one component

  function Filled<T>(members: seq<nat>, value: T, table: map<nat, T>): map<nat, T> {
    table + map k | k in members :: value
  }

  method Fill<T>(members: seq<nat>, value: T, table: map<nat, T>) returns (filled: map<nat, T>)
    ensures filled == Filled(members, value, table)
  {
    filled := table;
    for i := 0 to |members|
      invariant filled == Filled(members[..i], value, table)
    {
      assert members[..i + 1] == members[..i] + [members[i]];
      FilledSnoc(members[..i], members[i], value, table);
      filled := filled[members[i] := value];
    }
    assert members[..|members|] == members;
  }

  lemma FilledSnoc<T>(members: seq<nat>, member: nat, value: T, table: map<nat, T>)
    ensures Filled(members + [member], value, table) == Filled(members, value, table)[member := value]
  {
  }

  function Lookup<T>(table: map<nat, T>, k: nat): Option<T> { if k in table then Some(table[k]) else None }

  /** Everything recorded so far is right. */
  ghost predicate Right(input: Input, resolved: map<nat, Resolved>) { forall k | k in resolved :: resolved[k] == Answer(input, k) }

  ghost predicate IssuesRight(input: Input, members: seq<nat>, issues: map<nat, Issue>) {
    forall k | k in members :: Lookup(issues, k) == AnswerIssue(input, k)
  }

  predicate NeedsPython(native: bool, representative: Option<Resolved>) {
    !native || (representative.Some? && (representative.value.status.Unknown? || representative.value.status.Contradiction?))
  }

  /** One pass of the component loop; it fails only when the native facts say nothing about the first member. */
  method Component(input: Input, members: seq<nat>, evidence: set<string>, supplied: map<nat, seq<Fact>>, native: bool,
                   resolved: map<nat, Resolved>, issues: map<nat, Issue>, ghost keys: seq<nat>, ghost roots: map<nat, nat>,
                   ghost root: nat)
    returns (ok: bool, resolved': map<nat, Resolved>, issues': map<nat, Issue>)
    requires Fits(input) && Grouped(input, keys, roots) && members == KeysAt(keys, roots, root) && members != []
    requires evidence == EvidenceAt(input.equalities, roots, root)
    requires forall node: nat :: Row(supplied, node, []) == FactsOf(input.facts, node)
    requires Right(input, resolved) && forall k | k in members :: k !in issues
    ensures ok <==> !(native && members[0] !in resolved)
    ensures ok ==> Right(input, resolved') && IssuesRight(input, members, issues')
    ensures ok ==> resolved.Keys <= resolved'.Keys <= resolved.Keys + set k | k in members
    ensures ok && !native ==> (set k | k in members) <= resolved'.Keys
    ensures ok ==> forall k | k !in members :: Lookup(issues', k) == Lookup(issues, k)
  {
    ok, resolved', issues' := true, resolved, issues;
    var representative := Lookup(resolved, members[0]);
    if NeedsPython(native, representative) {
      resolved', issues' := MergeMembers(input, members, evidence, supplied, resolved, issues, keys, roots, root);
    } else if representative.None? {
      ok := false;
    } else {
      StatusCases(members[0], resolved, input);
      DecidedMembers(input, keys, roots, root);
    }
  }

  lemma DecidedMembers(input: Input, keys: seq<nat>, roots: map<nat, nat>, root: nat)
    requires Grouped(input, keys, roots) && KeysAt(keys, roots, root) != []
    requires var status := Answer(input, KeysAt(keys, roots, root)[0]).status; status.Exact? || status.Alternatives?
    ensures forall k | k in KeysAt(keys, roots, root) :: AnswerIssue(input, k).None?
  {
    var members := KeysAt(keys, roots, root);
    forall k | k in members ensures AnswerIssue(input, k).None? {
      MembersAgree(input, keys, roots, root, members[0], k);
      DecidedHasNoIssue(input, k);
    }
  }

  /** The Python merge of a component, written to every member. */
  method MergeMembers(input: Input, members: seq<nat>, evidence: set<string>, supplied: map<nat, seq<Fact>>,
                      resolved: map<nat, Resolved>, issues: map<nat, Issue>, ghost keys: seq<nat>, ghost roots: map<nat, nat>,
                      ghost root: nat)
    returns (resolved': map<nat, Resolved>, issues': map<nat, Issue>)
    requires Fits(input) && Grouped(input, keys, roots) && members == KeysAt(keys, roots, root)
    requires evidence == EvidenceAt(input.equalities, roots, root)
    requires forall node: nat :: Row(supplied, node, []) == FactsOf(input.facts, node)
    requires Right(input, resolved) && forall k | k in members :: k !in issues
    ensures Right(input, resolved') && IssuesRight(input, members, issues')
    ensures resolved'.Keys == resolved.Keys + set k | k in members
    ensures forall k | k !in members :: Lookup(issues', k) == Lookup(issues, k)
  {
    var all := CollectFacts(members, supplied, input.facts);
    MemberFactsExactly(members, input.facts);
    var merged, issue := PythonMerge(all, evidence, input.maxAlternatives);
    MergedForMembers(input, keys, roots, root, merged, issue);
    FilledRight(input, members, merged, resolved);
    resolved' := Fill(members, merged, resolved);
    issues' := issues;
    if issue.Some? {
      FilledIssues(input, members, issue.value, issues);
      issues' := Fill(members, issue.value, issues);
    } else {
      NoIssues(input, members, issues);
    }
  }

  lemma FilledRight(input: Input, members: seq<nat>, merged: Resolved, resolved: map<nat, Resolved>)
    requires Right(input, resolved) && forall k | k in members :: merged == Answer(input, k)
    ensures Right(input, Filled(members, merged, resolved))
    ensures Filled(members, merged, resolved).Keys == resolved.Keys + set k | k in members
  {
  }

  lemma FilledIssues(input: Input, members: seq<nat>, issue: Issue, issues: map<nat, Issue>)
    requires forall k | k in members :: Some(issue) == AnswerIssue(input, k)
    ensures IssuesRight(input, members, Filled(members, issue, issues))
    ensures forall k | k !in members :: Lookup(Filled(members, issue, issues), k) == Lookup(issues, k)
  {
  }

  lemma NoIssues(input: Input, members: seq<nat>, issues: map<nat, Issue>)
    requires forall k | k in members :: k !in issues && AnswerIssue(input, k) == None
    ensures IssuesRight(input, members, issues)
  {
  }

  lemma MergedForMembers(input: Input, keys: seq<nat>, roots: map<nat, nat>, root: nat, merged: Resolved, issue: Option<Issue>)
    requires Grouped(input, keys, roots)
    requires var all := Elements(MemberFacts(KeysAt(keys, roots, root), input.facts));
             && merged == Summary(all, EvidenceAt(input.equalities, roots, root), input.maxAlternatives)
             && issue == IssueOf(all, input.maxAlternatives)
    ensures forall k | k in KeysAt(keys, roots, root) :: merged == Answer(input, k) && issue == AnswerIssue(input, k)
  {
    forall k | k in KeysAt(keys, roots, root) ensures merged == Answer(input, k) && issue == AnswerIssue(input, k) {
      MembersAreComponent(input, keys, roots, root, k);
    }
  }

  lemma StatusCases(k: nat, resolved: map<nat, Resolved>, input: Input)
    requires k in resolved && Right(input, resolved)
    requires !resolved[k].status.Unknown? && !resolved[k].status.Contradiction?
    ensures Answer(input, k).status.Exact? || Answer(input, k).status.Alternatives?
  {
  }

  // ----- the whole solver

  ghost predicate IsRequired(input: Input, k: nat) { k in input.required }

  ghost predicate Progress(input: Input, roots: map<nat, nat>, native: bool, todo: set<nat>, resolved: map<nat, Resolved>,
                           issues: map<nat, Issue>)
  {
    && Right(input, resolved)
    && (native ==> forall k | IsRequired(input, k) :: k in resolved)
    && (forall k | k in roots && roots[k] !in todo :: Lookup(issues, k) == AnswerIssue(input, k))
    && (!native ==> forall k | k in roots && roots[k] !in todo :: k in resolved)
    && (forall k | k in roots && roots[k] in todo :: k !in issues)
    && (native ==> forall k | k in roots && roots[k] in todo && k in resolved :: IsRequired(input, k))
  }

  lemma ProgressStep(input: Input, keys: seq<nat>, roots: map<nat, nat>, native: bool, todo: set<nat>, root: nat,
                     resolved: map<nat, Resolved>, issues: map<nat, Issue>, resolved': map<nat, Resolved>,
                     issues': map<nat, Issue>)
    requires Grouped(input, keys, roots) && root in todo && Progress(input, roots, native, todo, resolved, issues)
    requires var members := KeysAt(keys, roots, root);
             && Right(input, resolved') && IssuesRight(input, members, issues')
             && resolved.Keys <= resolved'.Keys <= resolved.Keys + (set k | k in members)
             && (!native ==> (set k | k in members) <= resolved'.Keys)
             && (forall k | k !in members :: Lookup(issues', k) == Lookup(issues, k))
    ensures Progress(input, roots, native, todo - {root}, resolved', issues')
  {
    KeysAtExactly(keys, roots, root);
    var members := KeysAt(keys, roots, root);
    forall k | k in roots && roots[k] !in todo - {root} ensures Lookup(issues', k) == AnswerIssue(input, k) {
      if roots[k] == root { assert k in keys && k in members; } else { assert k !in members; }
    }
    forall k | k in roots && roots[k] in todo - {root} ensures k !in issues' {
      assert k !in members;
      assert Lookup(issues', k) == Lookup(issues, k);
    }
    if !native {
      forall k | k in roots && roots[k] !in todo - {root} ensures k in resolved' {
        if roots[k] == root { assert k in keys && k in members; }
      }
    } else {
      forall k | k in roots && roots[k] in todo - {root} && k in resolved' ensures IsRequired(input, k) { assert k !in members; }
    }
  }

  /** A component whose first key in dictionary order is not a required field. */
  ghost predicate Omitted(input: Input, i: nat) {
    var keys := KeyOrder(input.equalities, input.required, input.facts);
    && i < |keys| && keys[i] !in input.required
    && forall j | 0 <= j < i :: !Linked(Pairs(Links(input.equalities)), keys[j], keys[i])
  }

  lemma OmittedIsFirst(input: Input, keys: seq<nat>, roots: map<nat, nat>, i: nat)
    requires Grouped(input, keys, roots)
    ensures Omitted(input, i) <==> FirstOfComponent(keys, roots, i) && keys[i] !in input.required
  {
    if i < |keys| {
      assert keys[i] in roots;
      forall j | 0 <= j < i ensures roots[keys[j]] != roots[keys[i]] <==> !Linked(Pairs(Links(input.equalities)), keys[j], keys[i]) {
        assert keys[j] in keys;
        SameRootIffLinked(roots, Pairs(Links(input.equalities)), keys[j], keys[i]);
      }
    }
  }

  /** The first key of a component is the head of its member list. */
  lemma {:induction false} FirstIsHead(keys: seq<nat>, roots: map<nat, nat>, i: nat)
    requires FirstOfComponent(keys, roots, i)
    ensures KeysAt(keys, roots, roots[keys[i]]) != [] && KeysAt(keys, roots, roots[keys[i]])[0] == keys[i]
  {
    var rest := keys[..|keys| - 1];
    if i < |rest| {
      assert forall j | 0 <= j < |rest| :: rest[j] == keys[j];
      FirstIsHead(rest, roots, i);
    } else {
      assert forall j | 0 <= j < |rest| :: rest[j] == keys[j];
      NoKeyNoRow(rest, roots, roots[keys[i]]);
    }
  }

  lemma {:induction false} NoKeyNoRow(keys: seq<nat>, roots: map<nat, nat>, root: nat)
    requires forall j | 0 <= j < |keys| && keys[j] in roots :: roots[keys[j]] != root
    ensures KeysAt(keys, roots, root) == []
  {
    if keys != [] { NoKeyNoRow(keys[..|keys| - 1], roots, root); }
  }

  /** What a finished call reports: the answer for every required field and the issue code of every key. */
  ghost predicate Answers(input: Input, s: Solution) {
    && (forall k | k in input.required :: k in s.resolved && s.resolved[k] == Answer(input, k))
    && (forall k | k in KeyOrder(input.equalities, input.required, input.facts) :: Lookup(s.issues, k) == AnswerIssue(input, k))
  }

  method Build(input: Input) returns (uf: DictUnionFind)
    requires Fits(input)
    ensures fresh(uf) && uf.Valid() && Grouped(input, uf.order, uf.roots)
  {
    uf := new DictUnionFind();
    JoinEach(uf, input.equalities);
    AddEach(uf, input.required);
    AddEach(uf, Nodes(input.facts));
  }

  /** The component loop and everything before it. */
  method Solve(input: Input, native: bool) returns (r: Option<Solution>)
    requires Fits(input)
    ensures r.Some? ==> Answers(input, r.value)
    ensures r.None? <==> native && exists i: nat :: Omitted(input, i)
  {
    var uf := Build(input);
    KeysHold(input, uf.order, uf.roots);
    var components := GroupKeys(uf);
    var evidence := GroupEqualityEvidence(uf, input.equalities);
    var supplied := Supply(input.facts);
    var resolved: map<nat, Resolved>, issues: map<nat, Issue> := map[], map[];
    if native { resolved := NativeFacts(input); }
    r := SolveComponents(input, native, components, evidence, supplied, resolved, uf.order, uf.roots);
  }

  method SolveComponents(input: Input, native: bool, components: map<nat, seq<nat>>, evidence: map<nat, set<string>>,
                         supplied: map<nat, seq<Fact>>, start: map<nat, Resolved>, ghost keys: seq<nat>,
                         ghost roots: map<nat, nat>)
    returns (r: Option<Solution>)
    requires Fits(input) && Grouped(input, keys, roots)
    requires forall root: nat :: Row(components, root, []) == KeysAt(keys, roots, root)
    requires forall root | root in components :: components[root] != []
    requires forall root: nat :: Row(evidence, root, {}) == EvidenceAt(input.equalities, roots, root)
    requires forall node: nat :: Row(supplied, node, []) == FactsOf(input.facts, node)
    requires Right(input, start) && start.Keys == if native then set k | k in input.required else {}
    ensures r.Some? ==> Answers(input, r.value)
    ensures r.None? <==> native && exists i: nat :: Omitted(input, i)
  {
    var resolved, issues: map<nat, Issue> := start, map[];
    var todo := components.Keys;
    ProgressStart(input, keys, roots, native, components, start);
    while todo != {}
      invariant todo <= components.Keys && Progress(input, roots, native, todo, resolved, issues)
      invariant native ==> forall root | root in components.Keys - todo :: components[root][0] in input.required
    {
      var root :| root in todo;
      assert components[root] == Row(components, root, []);
      var ok, resolved', issues' := Advance(input, components[root], Row(evidence, root, {}), supplied, native, resolved, issues,
                                            keys, roots, root, todo);
      if !ok { return None; }
      todo, resolved, issues := todo - {root}, resolved', issues';
    }
    ProgressEnd(input, keys, roots, native, resolved, issues);
    if native { NoneOmitted(input, keys, roots, components); }
    r := Some(Solution(resolved, issues));
  }

  /** One turn of the component loop with its bookkeeping. */
  method Advance(input: Input, members: seq<nat>, evidence: set<string>, supplied: map<nat, seq<Fact>>, native: bool,
                 resolved: map<nat, Resolved>, issues: map<nat, Issue>, ghost keys: seq<nat>, ghost roots: map<nat, nat>,
                 ghost root: nat, ghost todo: set<nat>)
    returns (ok: bool, resolved': map<nat, Resolved>, issues': map<nat, Issue>)
    requires Fits(input) && Grouped(input, keys, roots) && members == KeysAt(keys, roots, root) && members != []
    requires evidence == EvidenceAt(input.equalities, roots, root)
    requires forall node: nat :: Row(supplied, node, []) == FactsOf(input.facts, node)
    requires root in todo && Progress(input, roots, native, todo, resolved, issues)
    ensures ok ==> Progress(input, roots, native, todo - {root}, resolved', issues')
    ensures ok && native ==> members[0] in input.required
    ensures !ok ==> native && exists i: nat :: Omitted(input, i)
  {
    MembersFresh(input, keys, roots, native, todo, root, resolved, issues);
    ok, resolved', issues' := Component(input, members, evidence, supplied, native, resolved, issues, keys, roots, root);
    if ok {
      ProgressStep(input, keys, roots, native, todo, root, resolved, issues, resolved', issues');
      HeadRequired(input, keys, roots, native, todo, root, resolved, issues);
    } else {
      FailedIsOmitted(input, keys, roots, root, todo, resolved, issues);
    }
  }

  /** Members of a component still to be done have no issue yet. */
  lemma MembersFresh(input: Input, keys: seq<nat>, roots: map<nat, nat>, native: bool, todo: set<nat>, root: nat,
                     resolved: map<nat, Resolved>, issues: map<nat, Issue>)
    requires Progress(input, roots, native, todo, resolved, issues) && root in todo
    ensures forall k | k in KeysAt(keys, roots, root) :: k !in issues
  {
    KeysAtExactly(keys, roots, root);
  }

  lemma ProgressStart(input: Input, keys: seq<nat>, roots: map<nat, nat>, native: bool, components: map<nat, seq<nat>>,
                      start: map<nat, Resolved>)
    requires Grouped(input, keys, roots)
    requires forall root: nat :: Row(components, root, []) == KeysAt(keys, roots, root)
    requires Right(input, start) && start.Keys == if native then set k | k in input.required else {}
    ensures Progress(input, roots, native, components.Keys, start, map[])
  {
    forall k | k in roots ensures roots[k] in components {
      KeysAtExactly(keys, roots, roots[k]);
      assert k in KeysAt(keys, roots, roots[k]);
      assert Row(components, roots[k], []) != [];
    }
  }

  lemma FailedIsOmitted(input: Input, keys: seq<nat>, roots: map<nat, nat>, root: nat, todo: set<nat>,
                        resolved: map<nat, Resolved>, issues: map<nat, Issue>)
    requires Grouped(input, keys, roots) && root in todo && Progress(input, roots, true, todo, resolved, issues)
    requires KeysAt(keys, roots, root) != [] && KeysAt(keys, roots, root)[0] !in resolved
    ensures exists i: nat :: Omitted(input, i)
  {
    var i := FirstKey(keys, roots, root);
    assert !IsRequired(input, keys[i]);
    OmittedIsFirst(input, keys, roots, i);
  }

  lemma HeadRequired(input: Input, keys: seq<nat>, roots: map<nat, nat>, native: bool, todo: set<nat>, root: nat,
                     resolved: map<nat, Resolved>, issues: map<nat, Issue>)
    requires Grouped(input, keys, roots) && root in todo && Progress(input, roots, native, todo, resolved, issues)
    requires KeysAt(keys, roots, root) != []
    ensures native && KeysAt(keys, roots, root)[0] in resolved ==> KeysAt(keys, roots, root)[0] in input.required
  {
    KeysAtExactly(keys, roots, root);
    var head := KeysAt(keys, roots, root)[0];
    assert head in KeysAt(keys, roots, root);
    assert native && head in resolved ==> IsRequired(input, head);
  }

  lemma NoneOmitted(input: Input, keys: seq<nat>, roots: map<nat, nat>, components: map<nat, seq<nat>>)
    requires Grouped(input, keys, roots)
    requires forall root: nat :: Row(components, root, []) == KeysAt(keys, roots, root)
    requires forall root | root in components :: components[root] != [] && components[root][0] in input.required
    ensures forall i: nat :: !Omitted(input, i)
  {
    forall i: nat ensures !Omitted(input, i) {
      OmittedIsFirst(input, keys, roots, i);
      if FirstOfComponent(keys, roots, i) {
        FirstIsHead(keys, roots, i);
        assert Row(components, roots[keys[i]], []) == KeysAt(keys, roots, roots[keys[i]]);
      }
    }
  }

  lemma ProgressEnd(input: Input, keys: seq<nat>, roots: map<nat, nat>, native: bool, resolved: map<nat, Resolved>,
                    issues: map<nat, Issue>)
    requires Grouped(input, keys, roots) && Progress(input, roots, native, {}, resolved, issues)
    ensures Answers(input, Solution(resolved, issues))
  {
    KeysHold(input, keys, roots);
    forall k | k in input.required ensures k in resolved && resolved[k] == Answer(input, k) {
      assert IsRequired(input, k);
      var i :| 0 <= i < |input.required| && input.required[i] == k;
    }
  }

  // ----- consequences

  /** The keys are the endpoints of equalities, the required fields and the nodes of facts. */
  ghost predicate IsKey(input: Input, k: nat) {
    || (exists q | q in Links(input.equalities) :: k == q.left || k == q.right)
    || k in input.required
    || (exists f | f in Elements(input.facts) :: k == f.node)
  }

  lemma {:induction false} EndpointsExactly(equalities: seq<Equality>, k: nat)
    ensures k in Endpoints(equalities) <==> exists q | q in equalities :: k == q.left || k == q.right
  {
    if equalities != [] {
      var rest, last := equalities[..|equalities| - 1], equalities[|equalities| - 1];
      EndpointsExactly(rest, k);
      assert equalities == rest + [last];
    }
  }

  lemma KeysExactly(input: Input, k: nat)
    ensures k in KeyOrder(input.equalities, input.required, input.facts) <==> IsKey(input, k)
  {
    var ends := AddKeys([], Endpoints(input.equalities));
    AddKeysHolds([], Endpoints(input.equalities));
    AddKeysHolds(ends, input.required);
    AddKeysHolds(AddKeys(ends, input.required), Nodes(input.facts));
    EndpointsExactly(input.equalities, k);
    NodesExactly(input.facts, k);
  }

  lemma NodesExactly(facts: seq<Fact>, k: nat)
    ensures k in Nodes(facts) <==> exists f | f in Elements(facts) :: k == f.node
  {
    if k in Nodes(facts) {
      var i :| 0 <= i < |facts| && Nodes(facts)[i] == k;
      assert facts[i] in Elements(facts);
    }
    if f :| f in Elements(facts) && k == f.node {
      var i :| 0 <= i < |facts| && facts[i] == f;
      assert Nodes(facts)[i] == k;
    }
  }

  /** With every field of every subject required, as by default, the native route never gives up, so both routes answer
      alike. */
  lemma DefaultFieldsNeverOmitted(input: Input)
    requires Fits(input) && forall k: nat | k < input.n :: k in input.required
    ensures forall i: nat :: !Omitted(input, i)
  {
    var keys := KeyOrder(input.equalities, input.required, input.facts);
    forall k | k in keys ensures k in input.required {
      KeysExactly(input, k);
      KeysFit(input, k);
    }
  }

  lemma KeysFit(input: Input, k: nat)
    requires Fits(input) && IsKey(input, k)
    ensures k < input.n
  {
  }

  /** A fact on a field nobody requires: the native route gives up where the Python route answers. */
  lemma UnrequiredFieldIsOmitted()
    ensures var input := Input(2, [Fact(1, Exact, {"4"}, {}, {})], [], [0], 2);
            Fits(input) && Omitted(input, 1)
  {
    var fact := Fact(1, Exact, {"4"}, {}, {});
    var input := Input(2, [fact], [], [0], 2);
    assert Nodes([fact]) == [1];
    assert [0][..0] == [] && [1][..0] == [];
    assert AddKeys([], [0]) == [0];
    assert AddKeys([0], [1]) == [0, 1];
    assert KeyOrder([], [0], [fact]) == [0, 1];
    if Linked(Pairs(Links([])), 0, 1) {
      var path :| Walk(Pairs(Links([])), path, 0, 1);
      assert Joined(Pairs(Links([])), path[0], path[0 + 1]);
    }
  }

  /** Two inputs that differ only in the order and repetition of facts, equalities and required fields. */
  ghost predicate Reordered(input: Input, input': Input) {
    && Elements(input.facts) == Elements(input'.facts) && Links(input.equalities) == Links(input'.equalities)
    && (forall k :: k in input.required <==> k in input'.required) && input.maxAlternatives == input'.maxAlternatives
  }

  /** Any two finished calls on such inputs, native or not, report the same for every required field and raise the same
      issues on the same keys. */
  lemma SolutionsOrderFree(input: Input, input': Input, s: Solution, s': Solution)
    requires Reordered(input, input') && Answers(input, s) && Answers(input', s')
    ensures forall k | k in input.required :: k in s.resolved && k in s'.resolved && s.resolved[k] == s'.resolved[k]
    ensures forall k | k in KeyOrder(input.equalities, input.required, input.facts) :: Lookup(s.issues, k) == Lookup(s'.issues, k)
  {
    forall k | k in KeyOrder(input.equalities, input.required, input.facts) ensures Lookup(s.issues, k) == Lookup(s'.issues, k) {
      KeysExactly(input, k);
      KeysExactly(input', k);
    }
  }
}
