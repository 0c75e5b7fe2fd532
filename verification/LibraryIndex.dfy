/** Candidate retrieval through an inverted index, against the plain double loop over targets and catalog. */
module LibraryIndex {
  import opened Identities
  import opened Sets

  datatype FeatureKind = FixedAnchor | Normalized | Structural

  datatype Feature = Feature(kind: FeatureKind, hash: string)

  /** Record identities are numbered in text order. */
  datatype Signature = Signature(id: nat, abi: string, fixedAnchors: seq<string>, normalized: seq<string>, structural: seq<string>)

  datatype Row = Row(target: nat, candidate: nat, abi: string, witnesses: set<Feature>)

  predicate Distinct<T(==)>(s: seq<T>) { forall i, j | 0 <= i < j < |s| :: s[i] != s[j] }

  function Tagged(kind: FeatureKind, hashes: seq<string>): (r: seq<Feature>)
    ensures |r| == |hashes|
  {
    seq(|hashes|, i requires 0 <= i < |hashes| => Feature(kind, hashes[i]))
  }

  function Features(r: Signature): seq<Feature> {
    Tagged(FixedAnchor, r.fixedAnchors) + Tagged(Normalized, r.normalized) + Tagged(Structural, r.structural)
  }

  /** Hash lists are sorted and free of duplicates when they are parsed. */
  predicate ValidSignature(r: Signature) { Distinct(r.fixedAnchors) && Distinct(r.normalized) && Distinct(r.structural) }

  predicate ValidRecords(rs: seq<Signature>) {
    && (forall i | 0 <= i < |rs| :: ValidSignature(rs[i]))
    && forall i, j | 0 <= i < j < |rs| :: rs[i].id != rs[j].id
  }

  lemma FeaturesDistinct(r: Signature)
    requires ValidSignature(r)
    ensures Distinct(Features(r))
  {
    TaggedDistinct(FixedAnchor, r.fixedAnchors);
    TaggedDistinct(Normalized, r.normalized);
    TaggedDistinct(Structural, r.structural);
    var a, b, c := Tagged(FixedAnchor, r.fixedAnchors), Tagged(Normalized, r.normalized), Tagged(Structural, r.structural);
    AppendDistinct(a, b);
    AppendDistinct(a + b, c);
  }

  lemma TaggedDistinct(kind: FeatureKind, hashes: seq<string>)
    requires Distinct(hashes)
    ensures Distinct(Tagged(kind, hashes)) && forall f | f in Tagged(kind, hashes) :: f.kind == kind
  {
  }

  lemma AppendDistinct(a: seq<Feature>, b: seq<Feature>)
    requires Distinct(a) && Distinct(b) && forall f | f in a :: f !in b
    ensures Distinct(a + b)
  {
    var all := a + b;
    forall i, j | 0 <= i < j < |all| ensures all[i] != all[j] {
      if i < |a| <= j { assert all[i] in a && all[j] in b; }
    }
  }

  // ----- the double loop

  predicate Matches(t: Signature, c: Signature, f: Feature) { t.abi == c.abi && f in Features(c) }

  /** The features of a list that a catalog record shares with a target. */
  function SharedIn(t: Signature, c: Signature, features: seq<Feature>): set<Feature> {
    set f | f in features && Matches(t, c, f)
  }

  function Shared(t: Signature, c: Signature): set<Feature> { SharedIn(t, c, Features(t)) }

  function Hashes(r: Signature, kind: FeatureKind): seq<string> {
    match kind
    case FixedAnchor => r.fixedAnchors
    case Normalized => r.normalized
    case Structural => r.structural
  }

  /** Two records share a feature when their ABI keys agree and both list its hash under its kind. */
  lemma SharedExactly(t: Signature, c: Signature, f: Feature)
    ensures f in Shared(t, c) <==> t.abi == c.abi && f.hash in Hashes(t, f.kind) && f.hash in Hashes(c, f.kind)
  {
    FeatureListed(t, f);
    FeatureListed(c, f);
  }

  lemma FeatureListed(r: Signature, f: Feature)
    ensures f in Features(r) <==> f.hash in Hashes(r, f.kind)
  {
    TaggedExactly(FixedAnchor, r.fixedAnchors, f);
    TaggedExactly(Normalized, r.normalized, f);
    TaggedExactly(Structural, r.structural, f);
  }

  lemma TaggedExactly(kind: FeatureKind, hashes: seq<string>, f: Feature)
    ensures f in Tagged(kind, hashes) <==> f.kind == kind && f.hash in hashes
  {
    if f.kind == kind && f.hash in hashes {
      var i :| 0 <= i < |hashes| && hashes[i] == f.hash;
      assert Tagged(kind, hashes)[i] == f;
    }
  }

  function SharedCount(catalog: seq<Signature>, t: Signature): nat {
    if catalog == [] then 0 else SharedCount(catalog[..|catalog| - 1], t) + |Shared(t, catalog[|catalog| - 1])|
  }

  function TotalShared(catalog: seq<Signature>, targets: seq<Signature>): nat {
    if targets == [] then 0
    else TotalShared(catalog, targets[..|targets| - 1]) + SharedCount(catalog, targets[|targets| - 1])
  }

  function CandidatesOf(catalog: seq<Signature>, t: Signature): set<nat> {
    set c | c in Indices(|catalog|) && c < |catalog| && Shared(t, catalog[c]) != {}
  }

  function Indices(n: nat): (s: set<nat>)
    ensures forall i: nat :: i in s <==> i < n
  {
    if n == 0 then {} else Indices(n - 1) + {n - 1}
  }

  function TotalRows(catalog: seq<Signature>, targets: seq<Signature>): nat {
    if targets == [] then 0
    else TotalRows(catalog, targets[..|targets| - 1]) + |CandidatesOf(catalog, targets[|targets| - 1])|
  }

  function RowFor(t: Signature, c: Signature): Row { Row(t.id, c.id, t.abi, Shared(t, c)) }

  ghost predicate IsRowOf(catalog: seq<Signature>, t: Signature, row: Row) {
    exists c | 0 <= c < |catalog| :: Shared(t, catalog[c]) != {} && row == RowFor(t, catalog[c])
  }

  /** The double loop's rows: one for every target and catalog record that share a feature under one ABI key. */
  ghost predicate IsRow(catalog: seq<Signature>, targets: seq<Signature>, row: Row) {
    exists k | 0 <= k < |targets| :: IsRowOf(catalog, targets[k], row)
  }

  // ----- the inverted index

  type Key = (string, Feature)

  function Postings(catalog: seq<Signature>, key: Key): seq<nat> {
    if catalog == [] then []
    else
      var last := catalog[|catalog| - 1];
      Postings(catalog[..|catalog| - 1], key) + if last.abi == key.0 && key.1 in Features(last) then [|catalog| - 1] else []
  }

  lemma {:induction false} PostingsExactly(catalog: seq<Signature>, key: Key)
    ensures forall i: nat :: i in Postings(catalog, key) <==> i < |catalog| && catalog[i].abi == key.0 && key.1 in Features(catalog[i])
  {
    if catalog != [] { PostingsExactly(catalog[..|catalog| - 1], key); }
  }

  function PostingsAt(inverted: map<Key, seq<nat>>, key: Key): seq<nat> { if key in inverted then inverted[key] else [] }

  ghost predicate Inverts(inverted: map<Key, seq<nat>>, catalog: seq<Signature>) {
    forall key: Key :: PostingsAt(inverted, key) == Postings(catalog, key)
  }

  method Invert(catalog: seq<Signature>) returns (inverted: map<Key, seq<nat>>)
    requires ValidRecords(catalog)
    ensures Inverts(inverted, catalog)
  {
    inverted := map[];
    for i := 0 to |catalog|
      invariant Inverts(inverted, catalog[..i])
    {
      assert catalog[..i + 1][..i] == catalog[..i];
      inverted := AddRecord(inverted, catalog, i);
      assert |catalog[..i]| == i;
    }
    assert catalog[..|catalog|] == catalog;
  }

  ghost predicate PartlyInverts(inverted: map<Key, seq<nat>>, catalog: seq<Signature>, abi: string, features: seq<Feature>) {
    forall key: Key :: PostingsAt(inverted, key)
      == Postings(catalog, key) + if abi == key.0 && key.1 in features then [|catalog|] else []
  }

  method AddRecord(before: map<Key, seq<nat>>, catalog: seq<Signature>, i: nat) returns (inverted: map<Key, seq<nat>>)
    requires i < |catalog| && ValidSignature(catalog[i]) && Inverts(before, catalog[..i])
    ensures PartlyInverts(inverted, catalog[..i], catalog[i].abi, Features(catalog[i]))
  {
    inverted := before;
    var features, abi := Features(catalog[i]), catalog[i].abi;
    FeaturesDistinct(catalog[i]);
    for j := 0 to |features|
      invariant PartlyInverts(inverted, catalog[..i], abi, features[..j])
    {
      var key := (abi, features[j]);
      PostOne(inverted, catalog[..i], abi, features, j);
      inverted := inverted[key := PostingsAt(inverted, key) + [i]];
    }
    assert features[..|features|] == features;
  }

  lemma PostOne(inverted: map<Key, seq<nat>>, catalog: seq<Signature>, abi: string, features: seq<Feature>, j: nat)
    requires j < |features| && Distinct(features) && PartlyInverts(inverted, catalog, abi, features[..j])
    ensures var key := (abi, features[j]);
            PartlyInverts(inverted[key := PostingsAt(inverted, key) + [|catalog|]], catalog, abi, features[..j + 1])
  {
    assert features[j] !in features[..j];
    assert features[..j + 1] == features[..j] + [features[j]];
  }

  // ----- counting hits either way

  function HitsIn(catalog: seq<Signature>, t: Signature, features: seq<Feature>): nat {
    if features == [] then 0
    else HitsIn(catalog, t, features[..|features| - 1]) + |Postings(catalog, (t.abi, features[|features| - 1]))|
  }

  lemma {:induction false} HitsGrow(catalog: seq<Signature>, t: Signature, features: seq<Feature>)
    requires catalog != [] && Distinct(features)
    ensures HitsIn(catalog, t, features)
         == HitsIn(catalog[..|catalog| - 1], t, features) + |SharedIn(t, catalog[|catalog| - 1], features)|
  {
    var c := catalog[|catalog| - 1];
    if features == [] {
      assert SharedIn(t, c, features) == {};
    } else {
      var rest, f := features[..|features| - 1], features[|features| - 1];
      HitsGrow(catalog, t, rest);
      SharedSnoc(t, c, features);
    }
  }

  lemma SharedSnoc(t: Signature, c: Signature, features: seq<Feature>)
    requires features != [] && Distinct(features)
    ensures var rest, f := features[..|features| - 1], features[|features| - 1];
            |SharedIn(t, c, features)| == |SharedIn(t, c, rest)| + if Matches(t, c, f) then 1 else 0
  {
    var rest, f := features[..|features| - 1], features[|features| - 1];
    assert features == rest + [f];
    assert f !in SharedIn(t, c, rest);
    assert SharedIn(t, c, features) == SharedIn(t, c, rest) + if Matches(t, c, f) then {f} else {};
  }

  lemma {:induction false} NoHits(t: Signature, features: seq<Feature>)
    ensures HitsIn([], t, features) == 0
  {
    if features != [] { NoHits(t, features[..|features| - 1]); }
  }

  /** Postings read for a target are its shared features, counted over the whole catalog. */
  lemma {:induction false} HitsAreShared(catalog: seq<Signature>, t: Signature)
    requires ValidSignature(t)
    ensures HitsIn(catalog, t, Features(t)) == SharedCount(catalog, t)
  {
    FeaturesDistinct(t);
    if catalog == [] {
      NoHits(t, Features(t));
    } else {
      HitsAreShared(catalog[..|catalog| - 1], t);
      HitsGrow(catalog, t, Features(t));
    }
  }

  lemma {:induction false} HitsMonotone(catalog: seq<Signature>, t: Signature, features: seq<Feature>, j: nat)
    requires j <= |features|
    ensures HitsIn(catalog, t, features[..j]) <= HitsIn(catalog, t, features)
  {
    if j < |features| {
      HitsMonotone(catalog, t, features[..|features| - 1], j);
      assert features[..|features| - 1][..j] == features[..j];
    } else {
      assert features[..j] == features;
    }
  }

  // ----- candidates of one target

  ghost predicate Collected(candidates: map<nat, set<Feature>>, catalog: seq<Signature>, t: Signature, features: seq<Feature>) {
    forall c: nat | c < |catalog| :: WitnessesAt(candidates, c) == SharedIn(t, catalog[c], features)
  }

  function WitnessesAt(candidates: map<nat, set<Feature>>, c: nat): set<Feature> { if c in candidates then candidates[c] else {} }

  ghost predicate Proper(candidates: map<nat, set<Feature>>, n: nat) {
    forall c | c in candidates :: c < n && candidates[c] != {}
  }

  method Collect(candidates: map<nat, set<Feature>>, postings: seq<nat>, f: Feature, n: nat) returns (more: map<nat, set<Feature>>)
    requires Proper(candidates, n) && forall k | 0 <= k < |postings| :: postings[k] < n
    ensures Proper(more, n)
    ensures forall c: nat :: WitnessesAt(more, c) == WitnessesAt(candidates, c) + if c in postings then {f} else {}
  {
    more := candidates;
    for k := 0 to |postings|
      invariant Proper(more, n)
      invariant forall c: nat :: WitnessesAt(more, c) == WitnessesAt(candidates, c) + if c in postings[..k] then {f} else {}
    {
      assert postings[..k + 1] == postings[..k] + [postings[k]];
      more := more[postings[k] := WitnessesAt(more, postings[k]) + {f}];
    }
    assert postings[..|postings|] == postings;
  }

  /** Reads every posting of a target; it fails once the running hit count passes the budget. */
  method Candidates(inverted: map<Key, seq<nat>>, catalog: seq<Signature>, t: Signature, features: seq<Feature>, before: nat,
                    maxHits: nat)
    returns (ok: bool, hits: nat, candidates: map<nat, set<Feature>>)
    requires Inverts(inverted, catalog) && before <= maxHits
    ensures ok <==> before + HitsIn(catalog, t, features) <= maxHits
    ensures ok ==> hits == before + HitsIn(catalog, t, features)
    ensures ok ==> Collected(candidates, catalog, t, features) && Proper(candidates, |catalog|)
  {
    ok, hits, candidates := true, before, map[];
    CollectedEmpty(catalog, t, features);
    for j := 0 to |features|
      invariant hits == before + HitsIn(catalog, t, features[..j]) && hits <= maxHits
      invariant Collected(candidates, catalog, t, features[..j]) && Proper(candidates, |catalog|)
    {
      HitsSnoc(catalog, t, features, j);
      HitsMonotone(catalog, t, features, j + 1);
      var within, count, more := ReadPosting(inverted, catalog, t, features, j, candidates, maxHits - hits);
      if !within {
        ok := false;
        return;
      }
      hits, candidates := hits + count, more;
    }
    assert features[..|features|] == features;
  }

  method ReadPosting(inverted: map<Key, seq<nat>>, catalog: seq<Signature>, t: Signature, features: seq<Feature>, j: nat,
                     candidates: map<nat, set<Feature>>, budget: nat)
    returns (within: bool, count: nat, more: map<nat, set<Feature>>)
    requires Inverts(inverted, catalog) && j < |features|
    requires Collected(candidates, catalog, t, features[..j]) && Proper(candidates, |catalog|)
    ensures count == |Postings(catalog, (t.abi, features[j]))| && (within <==> count <= budget)
    ensures within ==> Collected(more, catalog, t, features[..j + 1]) && Proper(more, |catalog|)
  {
    var postings := Lookup(inverted, catalog, (t.abi, features[j]));
    within, count, more := |postings| <= budget, |postings|, candidates;
    if within {
      more := Collect(candidates, postings, features[j], |catalog|);
      CollectStep(candidates, more, catalog, t, features, j);
    }
  }

  lemma CollectedEmpty(catalog: seq<Signature>, t: Signature, features: seq<Feature>)
    ensures Collected(map[], catalog, t, features[..0]) && Proper(map[], |catalog|)
  {
    forall c: nat | c < |catalog| ensures WitnessesAt(map[], c) == SharedIn(t, catalog[c], features[..0]) { }
  }

  method Lookup(inverted: map<Key, seq<nat>>, ghost catalog: seq<Signature>, key: Key) returns (postings: seq<nat>)
    requires Inverts(inverted, catalog)
    ensures postings == Postings(catalog, key) && forall k | 0 <= k < |postings| :: postings[k] < |catalog|
  {
    postings := PostingsAt(inverted, key);
    PostingsInRange(catalog, key);
  }

  lemma HitsSnoc(catalog: seq<Signature>, t: Signature, features: seq<Feature>, j: nat)
    requires j < |features|
    ensures HitsIn(catalog, t, features[..j + 1]) == HitsIn(catalog, t, features[..j]) + |Postings(catalog, (t.abi, features[j]))|
  {
    assert features[..j + 1][..j] == features[..j];
  }

  lemma PostingsInRange(catalog: seq<Signature>, key: Key)
    ensures forall k | 0 <= k < |Postings(catalog, key)| :: Postings(catalog, key)[k] < |catalog|
  {
    PostingsExactly(catalog, key);
    forall k | 0 <= k < |Postings(catalog, key)| ensures Postings(catalog, key)[k] < |catalog| {
      assert Postings(catalog, key)[k] in Postings(catalog, key);
    }
  }

  lemma CollectStep(candidates: map<nat, set<Feature>>, more: map<nat, set<Feature>>, catalog: seq<Signature>, t: Signature,
                    features: seq<Feature>, j: nat)
    requires j < |features| && Collected(candidates, catalog, t, features[..j])
    requires forall c: nat :: WitnessesAt(more, c)
               == WitnessesAt(candidates, c) + if c in Postings(catalog, (t.abi, features[j])) then {features[j]} else {}
    ensures Collected(more, catalog, t, features[..j + 1])
  {
    PostingsExactly(catalog, (t.abi, features[j]));
    assert features[..j + 1] == features[..j] + [features[j]];
    forall c: nat | c < |catalog| ensures WitnessesAt(more, c) == SharedIn(t, catalog[c], features[..j + 1]) {
      assert WitnessesAt(candidates, c) == SharedIn(t, catalog[c], features[..j]);
    }
  }

  /** What was collected are the candidates of the double loop with their shared features. */
  lemma CollectedExactly(candidates: map<nat, set<Feature>>, catalog: seq<Signature>, t: Signature)
    requires Collected(candidates, catalog, t, Features(t)) && Proper(candidates, |catalog|)
    ensures candidates.Keys == CandidatesOf(catalog, t)
    ensures forall c | c in candidates :: c < |catalog| && candidates[c] == Shared(t, catalog[c])
  {
    forall c: nat | c < |catalog| ensures c in candidates <==> Shared(t, catalog[c]) != {} {
      assert WitnessesAt(candidates, c) == SharedIn(t, catalog[c], Features(t));
    }
    forall c | c in candidates ensures candidates[c] == Shared(t, catalog[c]) {
      assert WitnessesAt(candidates, c) == SharedIn(t, catalog[c], Features(t));
    }
  }

  // ----- rows

  predicate RowBefore(a: Row, b: Row) {
    a.target < b.target || (a.target == b.target && a.candidate < b.candidate)
  }

  predicate RowsSorted(rows: seq<Row>) { forall i, j | 0 <= i < j < |rows| :: RowBefore(rows[i], rows[j]) }

  predicate PairsDistinct(rows: seq<Row>) {
    forall i, j | 0 <= i < j < |rows| :: (rows[i].target, rows[i].candidate) != (rows[j].target, rows[j].candidate)
  }

  function InsertRow(sorted: seq<Row>, row: Row): seq<Row> {
    if sorted == [] || RowBefore(row, sorted[0]) then [row] + sorted else [sorted[0]] + InsertRow(sorted[1..], row)
  }

  /** The library sort at the end. */
  function SortRows(rows: seq<Row>): seq<Row> {
    if rows == [] then [] else InsertRow(SortRows(rows[..|rows| - 1]), rows[|rows| - 1])
  }

  lemma {:induction false} InsertRowSorted(sorted: seq<Row>, row: Row)
    requires RowsSorted(sorted)
    requires forall x | x in sorted :: (x.target, x.candidate) != (row.target, row.candidate)
    ensures RowsSorted(InsertRow(sorted, row)) && |InsertRow(sorted, row)| == |sorted| + 1
    ensures forall x :: x in InsertRow(sorted, row) <==> x == row || x in sorted
  {
    if sorted != [] && !RowBefore(row, sorted[0]) {
      assert sorted == [sorted[0]] + sorted[1..];
      InsertRowSorted(sorted[1..], row);
      var rest := InsertRow(sorted[1..], row);
      assert sorted[0] in sorted && RowBefore(sorted[0], row);
      forall j | 0 <= j < |rest| ensures RowBefore(sorted[0], rest[j]) { assert rest[j] in rest; }
    }
  }

  lemma {:induction false} SortRowsSorted(rows: seq<Row>)
    requires PairsDistinct(rows)
    ensures RowsSorted(SortRows(rows)) && |SortRows(rows)| == |rows|
    ensures forall x :: x in SortRows(rows) <==> x in rows
  {
    if rows != [] {
      var rest, last := rows[..|rows| - 1], rows[|rows| - 1];
      SortRowsSorted(rest);
      forall x | x in SortRows(rest) ensures (x.target, x.candidate) != (last.target, last.candidate) {
        NewPair(rows, x);
      }
      InsertRowSorted(SortRows(rest), last);
      assert rows == rest + [last];
    }
  }

  lemma NewPair(rows: seq<Row>, x: Row)
    requires rows != [] && PairsDistinct(rows) && x in rows[..|rows| - 1]
    ensures (x.target, x.candidate) != (rows[|rows| - 1].target, rows[|rows| - 1].candidate)
  {
    var i :| 0 <= i < |rows| - 1 && rows[..|rows| - 1][i] == x;
    assert rows[i] == x;
  }

  /** The rows of the first n targets, each once. */
  ghost predicate Gathered(result: seq<Row>, catalog: seq<Signature>, targets: seq<Signature>, n: nat) {
    && n <= |targets| && PairsDistinct(result)
    && forall row :: row in result <==> IsRow(catalog, targets[..n], row)
  }

  /** The rows of some candidates of one target. */
  ghost predicate RowsOf(rows: seq<Row>, catalog: seq<Signature>, t: Signature, cs: set<nat>) {
    && |rows| == |cs| && PairsDistinct(rows)
    && (forall c | c in cs :: c < |catalog|)
    && (forall row | row in rows :: RowFrom(row, catalog, t, cs))
    && (forall c | c in cs :: RowFor(t, catalog[c]) in rows)
  }

  ghost predicate RowFrom(row: Row, catalog: seq<Signature>, t: Signature, cs: set<nat>) {
    exists c :: c in cs && c < |catalog| && row == RowFor(t, catalog[c])
  }

  method EmitRows(catalog: seq<Signature>, t: Signature, candidates: map<nat, set<Feature>>) returns (rows: seq<Row>)
    requires ValidRecords(catalog)
    requires forall c | c in candidates :: c < |catalog| && candidates[c] == Shared(t, catalog[c])
    ensures RowsOf(rows, catalog, t, candidates.Keys)
  {
    rows := [];
    var todo := candidates.Keys;
    ghost var done := {};
    while todo != {}
      invariant done + todo == candidates.Keys && done !! todo
      invariant RowsOf(rows, catalog, t, done)
    {
      var c :| c in todo;
      assert c in candidates && c !in done;
      RowsOfMore(rows, catalog, t, done, c);
      assert RowFor(t, catalog[c]) == Row(t.id, catalog[c].id, t.abi, candidates[c]);
      rows := rows + [Row(t.id, catalog[c].id, t.abi, candidates[c])];
      MoveOne(done, todo, c);
      todo, done := todo - {c}, done + {c};
    }
    assert done == candidates.Keys;
  }

  lemma RowsOfMore(rows: seq<Row>, catalog: seq<Signature>, t: Signature, cs: set<nat>, c: nat)
    requires ValidRecords(catalog) && RowsOf(rows, catalog, t, cs) && c !in cs && c < |catalog|
    ensures RowsOf(rows + [RowFor(t, catalog[c])], catalog, t, cs + {c})
  {
    var row := RowFor(t, catalog[c]);
    var more := rows + [row];
    forall i | 0 <= i < |rows| ensures (rows[i].target, rows[i].candidate) != (row.target, row.candidate) {
      assert rows[i] in rows && RowFrom(rows[i], catalog, t, cs);
      var d :| d in cs && d < |catalog| && rows[i] == RowFor(t, catalog[d]);
      assert catalog[if c < d then c else d].id != catalog[if c < d then d else c].id;
    }
    forall x | x in more ensures RowFrom(x, catalog, t, cs + {c}) {
      if x in rows {
        assert RowFrom(x, catalog, t, cs);
        var d :| d in cs && d < |catalog| && x == RowFor(t, catalog[d]);
        assert d in cs + {c};
      } else {
        assert c in cs + {c};
      }
    }
  }

  lemma GatherMore(result: seq<Row>, rows: seq<Row>, catalog: seq<Signature>, targets: seq<Signature>, n: nat)
    requires ValidRecords(targets) && n < |targets| && Gathered(result, catalog, targets, n)
    requires RowsOf(rows, catalog, targets[n], CandidatesOf(catalog, targets[n]))
    ensures Gathered(result + rows, catalog, targets, n + 1)
  {
    var t, more := targets[n], result + rows;
    assert targets[..n + 1] == targets[..n] + [t];
    forall row ensures row in more <==> IsRow(catalog, targets[..n + 1], row) {
      RowSplits(catalog, targets, n, row);
      RowsOfExactly(rows, catalog, t, row);
    }
    forall i, j | 0 <= i < |result| && 0 <= j < |rows| ensures result[i].target != rows[j].target {
      assert result[i] in result && rows[j] in rows;
      var k :| 0 <= k < |targets[..n]| && IsRowOf(catalog, targets[..n][k], result[i]);
      RowsOfExactly(rows, catalog, t, rows[j]);
      assert targets[k].id != targets[n].id;
    }
  }

  lemma RowSplits(catalog: seq<Signature>, targets: seq<Signature>, n: nat, row: Row)
    requires n < |targets|
    ensures IsRow(catalog, targets[..n + 1], row) <==> IsRow(catalog, targets[..n], row) || IsRowOf(catalog, targets[n], row)
  {
    assert targets[..n + 1] == targets[..n] + [targets[n]];
    RowAppends(catalog, targets[..n], targets[n], row);
  }

  lemma RowAppends(catalog: seq<Signature>, before: seq<Signature>, t: Signature, row: Row)
    ensures IsRow(catalog, before + [t], row) <==> IsRow(catalog, before, row) || IsRowOf(catalog, t, row)
  {
    var more := before + [t];
    if IsRow(catalog, before, row) {
      var k :| 0 <= k < |before| && IsRowOf(catalog, before[k], row);
      assert more[k] == before[k];
    }
    assert more[|before|] == t;
  }

  lemma RowsOfExactly(rows: seq<Row>, catalog: seq<Signature>, t: Signature, row: Row)
    requires RowsOf(rows, catalog, t, CandidatesOf(catalog, t))
    ensures row in rows <==> IsRowOf(catalog, t, row)
  {
    if row in rows {
      assert RowFrom(row, catalog, t, CandidatesOf(catalog, t));
      var c :| c in CandidatesOf(catalog, t) && c < |catalog| && row == RowFor(t, catalog[c]);
    }
    if IsRowOf(catalog, t, row) {
      var c :| 0 <= c < |catalog| && Shared(t, catalog[c]) != {} && row == RowFor(t, catalog[c]);
      assert c in CandidatesOf(catalog, t);
    }
  }

  // ----- retrieval

  lemma {:induction false} TotalsMonotone(catalog: seq<Signature>, targets: seq<Signature>, n: nat)
    requires n <= |targets|
    ensures TotalShared(catalog, targets[..n]) <= TotalShared(catalog, targets)
    ensures TotalRows(catalog, targets[..n]) <= TotalRows(catalog, targets)
  {
    if n < |targets| {
      TotalsMonotone(catalog, targets[..|targets| - 1], n);
      assert targets[..|targets| - 1][..n] == targets[..n];
    } else {
      assert targets[..n] == targets;
    }
  }

  lemma TotalsSnoc(catalog: seq<Signature>, targets: seq<Signature>, n: nat)
    requires n < |targets|
    ensures TotalShared(catalog, targets[..n + 1]) == TotalShared(catalog, targets[..n]) + SharedCount(catalog, targets[n])
    ensures TotalRows(catalog, targets[..n + 1]) == TotalRows(catalog, targets[..n]) + |CandidatesOf(catalog, targets[n])|
  {
    assert targets[..n + 1][..n] == targets[..n];
  }

  /** Retrieval fails exactly when the shared features or the rows exceed their budgets; otherwise the rows are
      exactly those of the double loop, in order and each once. */
  method RetrieveCandidates(catalog: seq<Signature>, targets: seq<Signature>, maxHits: nat, maxRows: nat)
    returns (r: Option<seq<Row>>)
    requires ValidRecords(catalog) && ValidRecords(targets)
    ensures r.None? <==> TotalShared(catalog, targets) > maxHits || TotalRows(catalog, targets) > maxRows
    ensures r.Some? ==> RowsSorted(r.value) && |r.value| == TotalRows(catalog, targets)
    ensures r.Some? ==> forall row :: row in r.value <==> IsRow(catalog, targets, row)
  {
    var inverted := Invert(catalog);
    var result: seq<Row>, hits := [], 0;
    for n := 0 to |targets|
      invariant hits == TotalShared(catalog, targets[..n]) && hits <= maxHits
      invariant |result| == TotalRows(catalog, targets[..n]) && |result| <= maxRows
      invariant Gathered(result, catalog, targets, n)
    {
      TotalsSnoc(catalog, targets, n);
      TotalsMonotone(catalog, targets, n + 1);
      HitsAreShared(catalog, targets[n]);
      var ok, total, candidates := Candidates(inverted, catalog, targets[n], Features(targets[n]), hits, maxHits);
      if !ok { return None; }
      CollectedExactly(candidates, catalog, targets[n]);
      if |result| + |candidates.Keys| > maxRows { return None; }
      var rows := EmitRows(catalog, targets[n], candidates);
      GatherMore(result, rows, catalog, targets, n);
      result, hits := result + rows, total;
    }
    assert targets[..|targets|] == targets;
    SortRowsSorted(result);
    r := Some(SortRows(result));
  }
}
