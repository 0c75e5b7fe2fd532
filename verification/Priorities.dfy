/** Work priorities and the pending queue of the closure loop. */
module Priorities {
  import opened Identities
  import opened Sets
  import opened Sequences

  datatype WorkKey = WorkKey(rva: nat, context: Context)

  type Adjacency = map<nat, set<nat>>

  predicate ClosedGraph(adjacency: Adjacency) {
    forall rva | rva in adjacency :: adjacency[rva] <= adjacency.Keys
  }

  // ----- depth-first postorder with an explicit stack

  datatype Visit = Visit(rva: nat, exiting: bool)

  predicate Distinct(s: seq<nat>) { forall i, j | 0 <= i < j < |s| :: s[i] != s[j] }

  /** The nodes waiting on the stack, in the order they will be left: top first. */
  function Waiting(stack: seq<Visit>): (s: seq<nat>)
    ensures |s| == |stack| && forall i | 0 <= i < |s| :: s[i] == stack[|stack| - 1 - i].rva
  {
    seq(|stack|, i requires 0 <= i < |stack| => stack[|stack| - 1 - i].rva)
  }

  ghost function Members(s: seq<nat>): set<nat> { set x | x in s }

  /** Work left on the stack: entering a node costs more than leaving it. */
  ghost function StackCost(stack: seq<Visit>): nat {
    if stack == [] then 0
    else (if stack[|stack| - 1].exiting then 1 else 2) + StackCost(stack[..|stack| - 1])
  }

  /** Some predecessor of the i-th node comes later. */
  predicate Followed(order: seq<nat>, i: nat, adjacency: Adjacency)
    requires i < |order|
  {
    exists j :: i < j < |order| && order[j] in adjacency && order[i] in adjacency[order[j]]
  }

  /** The traversal so far: every visited node is finished or waiting, once; it started a tree of its own or is left
      before one of its predecessors; and the successors of all but the nodes still to be entered are visited. */
  ghost predicate Traversal(visited: set<nat>, stack: seq<Visit>, postorder: seq<nat>, adjacency: Adjacency, seeds: set<nat>) {
    && visited <= adjacency.Keys
    && Distinct(postorder + Waiting(stack))
    && Members(postorder + Waiting(stack)) == visited
    && Ordered(postorder + Waiting(stack), adjacency, seeds)
    && forall rva | rva in visited && Visit(rva, false) !in stack :: adjacency[rva] <= visited
  }

  ghost predicate Ordered(order: seq<nat>, adjacency: Adjacency, seeds: set<nat>) {
    forall i | 0 <= i < |order| :: order[i] in seeds || Followed(order, i, adjacency)
  }

  /** Pushes the unvisited successors of the node on top of the stack. */
  method PushSuccessors(rva: nat, visited: set<nat>, stack: seq<Visit>, ghost postorder: seq<nat>, adjacency: Adjacency,
                        ghost seeds: set<nat>)
    returns (visited': set<nat>, stack': seq<Visit>)
    requires ClosedGraph(adjacency) && rva in adjacency && Visit(rva, true) in stack
    requires Expanding(rva, visited, stack, postorder, adjacency, seeds)
    ensures Traversal(visited', stack', postorder, adjacency, seeds) && visited <= visited'
    ensures 3 * |adjacency.Keys - visited'| + StackCost(stack') <= 3 * |adjacency.Keys - visited| + StackCost(stack)
  {
    visited', stack' := visited, stack;
    var todo := adjacency[rva];
    while todo != {}
      invariant todo <= adjacency[rva] && visited <= visited' && adjacency[rva] <= visited' + todo && Visit(rva, true) in stack'
      invariant Expanding(rva, visited', stack', postorder, adjacency, seeds)
      invariant 3 * |adjacency.Keys - visited'| + StackCost(stack') <= 3 * |adjacency.Keys - visited| + StackCost(stack)
    {
      var target :| target in todo;
      todo := todo - {target};
      if target !in visited' {
        PushOne(visited', stack', postorder, adjacency, seeds, rva, target);
        visited' := visited' + {target};
        stack' := stack' + [Visit(target, false)];
      }
    }
  }

  /** A traversal in which one node is on the stack as being left before all its successors are visited. */
  ghost predicate Expanding(rva: nat, visited: set<nat>, stack: seq<Visit>, postorder: seq<nat>, adjacency: Adjacency,
                            seeds: set<nat>)
  {
    && visited <= adjacency.Keys
    && Distinct(postorder + Waiting(stack))
    && Members(postorder + Waiting(stack)) == visited
    && Ordered(postorder + Waiting(stack), adjacency, seeds)
    && forall other | other in visited && other != rva && Visit(other, false) !in stack :: adjacency[other] <= visited
  }

  lemma PushOne(visited: set<nat>, stack: seq<Visit>, postorder: seq<nat>, adjacency: Adjacency, seeds: set<nat>, rva: nat,
                target: nat)
    requires Expanding(rva, visited, stack, postorder, adjacency, seeds) && Visit(rva, true) in stack
    requires rva in adjacency && target in adjacency[rva] && target in adjacency && target !in visited
    ensures Expanding(rva, visited + {target}, stack + [Visit(target, false)], postorder, adjacency, seeds)
    ensures |adjacency.Keys - (visited + {target})| == |adjacency.Keys - visited| - 1
    ensures StackCost(stack + [Visit(target, false)]) == StackCost(stack) + 2
  {
    var grown := stack + [Visit(target, false)];
    assert grown[..|grown| - 1] == stack;
    assert Waiting(grown) == [target] + Waiting(stack);
    var k :| 0 <= k < |stack| && stack[k] == Visit(rva, true);
    assert Waiting(stack)[|stack| - 1 - k] == rva;
    Inserted(postorder, Waiting(stack), adjacency, seeds, target);
    assert adjacency.Keys - visited == (adjacency.Keys - (visited + {target})) + {target};
    forall other | other in visited + {target} && other != rva && Visit(other, false) !in grown
      ensures adjacency[other] <= visited + {target}
    {
      assert grown[|stack|] == Visit(target, false);
      assert forall i | 0 <= i < |stack| :: grown[i] == stack[i];
    }
  }

  /** A new node put between the finished and the waiting ones. */
  lemma Inserted(front: seq<nat>, back: seq<nat>, adjacency: Adjacency, seeds: set<nat>, target: nat)
    requires Distinct(front + back) && target !in front + back && Ordered(front + back, adjacency, seeds)
    requires target in seeds || exists k :: 0 <= k < |back| && back[k] in adjacency && target in adjacency[back[k]]
    ensures Distinct(front + ([target] + back)) && Members(front + ([target] + back)) == Members(front + back) + {target}
    ensures Ordered(front + ([target] + back), adjacency, seeds)
  {
    var before, after, n := front + back, front + ([target] + back), |front|;
    assert forall i | 0 <= i < |before| :: after[if i < n then i else i + 1] == before[i];
    forall x ensures x in after <==> x in before || x == target {
      assert after[n] == target;
      if x in before {
        var i :| 0 <= i < |before| && before[i] == x;
        assert after[if i < n then i else i + 1] == x;
      }
    }
    forall i, j | 0 <= i < j < |after| ensures after[i] != after[j] {
      if i == n || j == n {
        assert after[if i == n then j else i] == before[if i == n then j - 1 else i];
      } else {
        assert after[i] == before[if i < n then i else i - 1] && after[j] == before[if j < n then j else j - 1];
      }
    }
    forall i | 0 <= i < |after| ensures after[i] in seeds || Followed(after, i, adjacency) {
      if i == n {
        if target !in seeds {
          var k :| 0 <= k < |back| && back[k] in adjacency && target in adjacency[back[k]];
          assert after[n + 1 + k] == back[k];
        }
      } else {
        var i' := if i < n then i else i - 1;
        assert before[i'] == after[i];
        if before[i'] !in seeds {
          assert Followed(before, i', adjacency);
          var j :| i' < j < |before| && before[j] in adjacency && before[i'] in adjacency[before[j]];
          assert after[if j < n then j else j + 1] == before[j];
        }
      }
    }
  }

  /** Traverses everything reachable from one seed. */
  method VisitFrom(seed: nat, adjacency: Adjacency, visited: set<nat>, postorder: seq<nat>, ghost seeds: set<nat>)
    returns (visited': set<nat>, postorder': seq<nat>)
    requires ClosedGraph(adjacency) && seed in adjacency && (seed in visited || seed in seeds)
    requires Traversal(visited, [], postorder, adjacency, seeds)
    ensures Traversal(visited', [], postorder', adjacency, seeds) && visited <= visited' && seed in visited'
  {
    visited', postorder' := visited, postorder;
    if seed in visited { return; }
    StartTree(visited, postorder, adjacency, seeds, seed);
    visited' := visited + {seed};
    var stack := [Visit(seed, false)];
    while stack != []
      invariant Traversal(visited', stack, postorder', adjacency, seeds) && visited <= visited' && seed in visited'
      decreases TraversalCost(visited', stack, adjacency)
    {
      visited', stack, postorder' := VisitStep(visited', stack, postorder', adjacency, seeds);
    }
  }

  lemma StartTree(visited: set<nat>, postorder: seq<nat>, adjacency: Adjacency, seeds: set<nat>, seed: nat)
    requires Traversal(visited, [], postorder, adjacency, seeds)
    requires seed in adjacency && seed in seeds && seed !in visited
    ensures Traversal(visited + {seed}, [Visit(seed, false)], postorder, adjacency, seeds)
  {
    assert postorder + Waiting([]) == postorder + [] == postorder;
    Inserted(postorder, [], adjacency, seeds, seed);
    assert Waiting([Visit(seed, false)]) == [seed] + [];
    forall rva | rva in visited + {seed} && Visit(rva, false) !in [Visit(seed, false)]
      ensures adjacency[rva] <= visited + {seed}
    {
      assert [Visit(seed, false)][0] == Visit(seed, false);
      assert Visit(rva, false) !in [];
    }
  }

  ghost function TraversalCost(visited: set<nat>, stack: seq<Visit>, adjacency: Adjacency): nat {
    3 * |adjacency.Keys - visited| + StackCost(stack)
  }

  /** Pops one entry: a node being left is finished, a node being entered waits below its successors. */
  method VisitStep(visited: set<nat>, stack: seq<Visit>, postorder: seq<nat>, adjacency: Adjacency, ghost seeds: set<nat>)
    returns (visited': set<nat>, stack': seq<Visit>, postorder': seq<nat>)
    requires ClosedGraph(adjacency) && stack != [] && Traversal(visited, stack, postorder, adjacency, seeds)
    ensures Traversal(visited', stack', postorder', adjacency, seeds) && visited <= visited'
    ensures TraversalCost(visited', stack', adjacency) < TraversalCost(visited, stack, adjacency)
  {
    var top := stack[|stack| - 1];
    var rest := stack[..|stack| - 1];
    assert stack == rest + [Visit(top.rva, top.exiting)];
    if top.exiting {
      LeaveOne(visited, rest, postorder, adjacency, seeds, top.rva);
      visited', stack', postorder' := visited, rest, postorder + [top.rva];
    } else {
      ReenterOne(visited, rest, postorder, adjacency, seeds, top.rva);
      postorder' := postorder;
      visited', stack' := PushSuccessors(top.rva, visited, rest + [Visit(top.rva, true)], postorder, adjacency, seeds);
    }
  }

  lemma LeaveOne(visited: set<nat>, stack: seq<Visit>, postorder: seq<nat>, adjacency: Adjacency, seeds: set<nat>, rva: nat)
    requires Traversal(visited, stack + [Visit(rva, true)], postorder, adjacency, seeds)
    ensures Traversal(visited, stack, postorder + [rva], adjacency, seeds)
  {
    var more := stack + [Visit(rva, true)];
    assert Waiting(more) == [rva] + Waiting(stack);
    assert postorder + Waiting(more) == postorder + [rva] + Waiting(stack);
    forall other | other in visited && Visit(other, false) !in stack ensures adjacency[other] <= visited {
      assert Visit(other, false) !in more;
    }
  }

  lemma ReenterOne(visited: set<nat>, stack: seq<Visit>, postorder: seq<nat>, adjacency: Adjacency, seeds: set<nat>, rva: nat)
    requires Traversal(visited, stack + [Visit(rva, false)], postorder, adjacency, seeds)
    ensures Expanding(rva, visited, stack + [Visit(rva, true)], postorder, adjacency, seeds)
    ensures rva in adjacency && Visit(rva, true) in stack + [Visit(rva, true)]
    ensures StackCost(stack + [Visit(rva, true)]) == StackCost(stack) + 1
    ensures StackCost(stack + [Visit(rva, false)]) == StackCost(stack) + 2
  {
    var before, after := stack + [Visit(rva, false)], stack + [Visit(rva, true)];
    assert after[|stack|] == Visit(rva, true);
    assert Waiting(after) == Waiting(before);
    assert Waiting(before)[0] == rva && (postorder + Waiting(before))[|postorder|] == rva;
    assert rva in Members(postorder + Waiting(before));
    assert before[..|stack|] == stack && after[..|stack|] == stack;
    forall other | other in visited && other != rva && Visit(other, false) !in after ensures adjacency[other] <= visited {
      assert Visit(other, false) !in before;
    }
  }

  /** Distinct priorities 0 .. n-1, one for every node. */
  ghost predicate IsNumbering(priorities: map<nat, nat>, nodes: set<nat>) {
    && priorities.Keys == nodes
    && (forall a, b | a in nodes && b in nodes && a != b :: priorities[a] != priorities[b])
    && (forall a | a in nodes :: priorities[a] < |nodes|)
    && (forall p: nat | p < |nodes| :: Assigned(priorities, p))
  }

  ghost predicate Assigned(priorities: map<nat, nat>, p: nat) { exists a :: a in priorities && priorities[a] == p }

  /** The static edges and those discovered between known nodes. */
  function AllEdges(staticAdjacency: Adjacency, discovered: set<(nat, nat)>): Adjacency {
    map rva | rva in staticAdjacency
      :: staticAdjacency[rva] + set edge | edge in discovered && edge.0 == rva && edge.1 in staticAdjacency :: edge.1
  }

  /** Some set holds the known roots, is closed under the edges and does not hold the node. */
  ghost predicate Unreached(rva: nat, roots: seq<nat>, adjacency: Adjacency) {
    exists reached: set<nat> :: Surrounds(reached, roots, adjacency) && rva !in reached
  }

  ghost predicate Surrounds(reached: set<nat>, roots: seq<nat>, adjacency: Adjacency) {
    && (forall i | 0 <= i < |roots| && roots[i] in adjacency :: roots[i] in reached)
    && forall rva | rva in reached && rva in adjacency :: adjacency[rva] <= reached
  }

  /** A node comes after one of its predecessors. */
  predicate Preceded(rva: nat, priorities: map<nat, nat>, adjacency: Adjacency)
    requires rva in priorities
  {
    exists source :: source in adjacency && rva in adjacency[source] && source in priorities && priorities[source] < priorities[rva]
  }

  /** Every node that the roots lead to is a root or comes after one of its predecessors. */
  ghost predicate RootsFirst(priorities: map<nat, nat>, roots: seq<nat>, adjacency: Adjacency) {
    && priorities.Keys == adjacency.Keys
    && forall rva | rva in adjacency ::
         rva in roots || Unreached(rva, roots, adjacency) || Preceded(rva, priorities, adjacency)
  }

  /** native_rpo_priorities: every node gets a number of its own, and a node that the roots lead to is a root or comes
      after one of its predecessors. */
  method NativeRpoPriorities(roots: seq<nat>, staticAdjacency: Adjacency, discovered: set<(nat, nat)>)
    returns (priorities: map<nat, nat>)
    requires ClosedGraph(staticAdjacency)
    ensures IsNumbering(priorities, staticAdjacency.Keys)
    ensures priorities.Keys == staticAdjacency.Keys
    ensures RootsFirst(priorities, roots, AllEdges(staticAdjacency, discovered))
  {
    var adjacency := AllEdges(staticAdjacency, discovered);
    assert adjacency.Keys == staticAdjacency.Keys && ClosedGraph(adjacency);
    var postorder := Postorder(roots, adjacency);
    priorities := Enumerate(postorder);
    NumberingOf(postorder, priorities);
    forall rva | rva in adjacency
      ensures rva in roots || Unreached(rva, roots, adjacency) || Preceded(rva, priorities, adjacency)
    {
      NumberedPlace(rva, roots, adjacency, postorder, priorities);
    }
  }

  /** A node of the postorder is a root, out of the roots' reach, or left before one of its predecessors. */
  ghost predicate Placed(postorder: seq<nat>, i: nat, roots: seq<nat>, adjacency: Adjacency)
    requires i < |postorder|
  {
    postorder[i] in roots || Unreached(postorder[i], roots, adjacency) || Followed(postorder, i, adjacency)
  }

  /** Everything the roots lead to, then everything else. */
  method Postorder(roots: seq<nat>, adjacency: Adjacency) returns (postorder: seq<nat>)
    requires ClosedGraph(adjacency)
    ensures Distinct(postorder) && Members(postorder) == adjacency.Keys
    ensures forall i | 0 <= i < |postorder| :: Placed(postorder, i, roots, adjacency)
  {
    var visited: set<nat>;
    visited, postorder := FromRoots(roots, adjacency);
    ghost var reached := visited;
    ghost var seeds := Members(roots) + (adjacency.Keys - reached);
    MoreSeeds(visited, postorder, adjacency, Members(roots), seeds);
    var rvas := adjacency.Keys;
    while rvas != {}
      invariant rvas <= adjacency.Keys && adjacency.Keys - rvas <= visited && reached <= visited
      invariant Traversal(visited, [], postorder, adjacency, seeds)
    {
      var rva :| rva in rvas;
      visited, postorder := VisitFrom(rva, adjacency, visited, postorder, seeds);
      rvas := rvas - {rva};
    }
    assert postorder + Waiting([]) == postorder;
  }

  method FromRoots(roots: seq<nat>, adjacency: Adjacency) returns (visited: set<nat>, postorder: seq<nat>)
    requires ClosedGraph(adjacency)
    ensures Traversal(visited, [], postorder, adjacency, Members(roots)) && Surrounds(visited, roots, adjacency)
  {
    visited, postorder := {}, [];
    for i := 0 to |roots|
      invariant Traversal(visited, [], postorder, adjacency, Members(roots))
      invariant forall k | 0 <= k < i && roots[k] in adjacency :: roots[k] in visited
    {
      if roots[i] in adjacency {
        visited, postorder := VisitFrom(roots[i], adjacency, visited, postorder, Members(roots));
      }
    }
  }

  lemma NumberedPlace(rva: nat, roots: seq<nat>, adjacency: Adjacency, postorder: seq<nat>, priorities: map<nat, nat>)
    requires rva in adjacency && Members(postorder) == adjacency.Keys == priorities.Keys
    requires forall i | 0 <= i < |postorder| :: priorities[postorder[i]] == |postorder| - 1 - i
    requires forall i | 0 <= i < |postorder| :: Placed(postorder, i, roots, adjacency)
    ensures rva in roots || Unreached(rva, roots, adjacency) || Preceded(rva, priorities, adjacency)
  {
    var i :| 0 <= i < |postorder| && postorder[i] == rva;
    assert Placed(postorder, i, roots, adjacency);
    if Followed(postorder, i, adjacency) { FollowedPrecedes(postorder, i, priorities, adjacency); }
  }

  lemma MoreSeeds(visited: set<nat>, postorder: seq<nat>, adjacency: Adjacency, fewer: set<nat>, more: set<nat>)
    requires Traversal(visited, [], postorder, adjacency, fewer) && fewer <= more
    ensures Traversal(visited, [], postorder, adjacency, more)
  {
  }

  lemma FollowedPrecedes(postorder: seq<nat>, i: nat, priorities: map<nat, nat>, adjacency: Adjacency)
    requires i < |postorder| && Followed(postorder, i, adjacency) && priorities.Keys == Members(postorder)
    requires forall i | 0 <= i < |postorder| :: priorities[postorder[i]] == |postorder| - 1 - i
    ensures Preceded(postorder[i], priorities, adjacency)
  {
    var j :| i < j < |postorder| && postorder[j] in adjacency && postorder[i] in adjacency[postorder[j]];
    assert postorder[j] in Members(postorder);
    assert priorities[postorder[j]] < priorities[postorder[i]];
  }

  lemma NumberingOf(postorder: seq<nat>, priorities: map<nat, nat>)
    requires Distinct(postorder) && priorities.Keys == Members(postorder)
    requires forall i | 0 <= i < |postorder| :: priorities[postorder[i]] == |postorder| - 1 - i
    ensures IsNumbering(priorities, Members(postorder))
  {
    DistinctCard(postorder);
    forall a | a in priorities ensures exists i :: 0 <= i < |postorder| && postorder[i] == a { }
    forall p: nat | p < |postorder| ensures Assigned(priorities, p) {
      assert priorities[postorder[|postorder| - 1 - p]] == p;
    }
  }

  lemma {:induction false} DistinctCard(s: seq<nat>)
    requires Distinct(s)
    ensures |Members(s)| == |s|
  {
    if s != [] {
      var rest := s[..|s| - 1];
      DistinctCard(rest);
      assert s == rest + [s[|s| - 1]];
      assert Members(s) == Members(rest) + {s[|s| - 1]};
    }
  }

  /** Numbers the reversed postorder from zero. */
  method Enumerate(postorder: seq<nat>) returns (priorities: map<nat, nat>)
    requires Distinct(postorder)
    ensures priorities.Keys == Members(postorder)
    ensures forall i | 0 <= i < |postorder| :: priorities[postorder[i]] == |postorder| - 1 - i
  {
    priorities := map[];
    for k := 0 to |postorder|
      invariant priorities.Keys == Members(postorder[|postorder| - k..])
      invariant forall i | |postorder| - k <= i < |postorder| :: priorities[postorder[i]] == |postorder| - 1 - i
    {
      var i := |postorder| - 1 - k;
      assert postorder[i..] == [postorder[i]] + postorder[i + 1..];
      priorities := priorities[postorder[i] := k];
    }
    assert postorder[0..] == postorder;
  }

  // ----- the pending queue

  datatype Row = Row(priority: nat, key: WorkKey)

  function RowOf(priorities: map<nat, nat>, key: WorkKey): Row
    requires key.rva in priorities
  {
    Row(priorities[key.rva], key)
  }

  /** The order of rows: priority, address, then the fields of the context. */
  function Code(row: Row): seq<nat> {
    [row.priority, row.key.rva, row.key.context.root, row.key.context.entry] + row.key.context.callString
  }

  predicate RowLess(a: Row, b: Row) { SeqLess(Code(a), Code(b)) }

  lemma CodeInjective(a: Row, b: Row)
    requires Code(a) == Code(b)
    ensures a == b
  {
    var c, d := Code(a), Code(b);
    assert c[0] == d[0] && c[1] == d[1] && c[2] == d[2] && c[3] == d[3] && c[4..] == d[4..];
    assert a.key.context.callString == c[4..] && b.key.context.callString == d[4..];
  }

  /** The row that comes before all others. */
  predicate IsFirst(row: Row, rows: set<Row>) {
    row in rows && forall other | other in rows :: other == row || RowLess(row, other)
  }

  ghost predicate RowsMatch(rows: set<Row>, priorities: map<nat, nat>, queued: set<WorkKey>) {
    && (forall key | key in queued :: key.rva in priorities && RowOf(priorities, key) in rows)
    && (forall row | row in rows :: row.key in queued && row.key.rva in priorities && row == RowOf(priorities, row.key))
  }

  lemma RemoveRow(rows: set<Row>, priorities: map<nat, nat>, queued: set<WorkKey>, row: Row)
    requires RowsMatch(rows, priorities, queued) && row in rows
    ensures RowsMatch(rows - {row}, priorities, queued - {row.key})
  {
  }

  lemma EmptyRows(rows: set<Row>, priorities: map<nat, nat>, queued: set<WorkKey>)
    requires RowsMatch(rows, priorities, queued)
    ensures rows == {} ==> queued == {}
  {
    forall key | key in queued ensures rows != {} { assert RowOf(priorities, key) in rows; }
  }

  /** Rows rebuilt under new priorities lose no queued key. */
  function Rows(priorities: map<nat, nat>, queued: set<WorkKey>): (rows: set<Row>)
    requires forall key | key in queued :: key.rva in priorities
    ensures RowsMatch(rows, priorities, queued)
  {
    set key | key in queued :: RowOf(priorities, key)
  }

  function KnownEdges(source: nat, targets: set<nat>, nodes: set<nat>): set<(nat, nat)> {
    set target | target in targets && target in nodes :: (source, target)
  }

  class NativePending {
    const roots: seq<nat>
    const staticAdjacency: Adjacency
    var discoveredEdges: set<(nat, nat)>
    var priorities: map<nat, nat>
    var queued: set<WorkKey>
    var rows: set<Row>

    /** The rows are the queued keys under their current priorities. */
    ghost predicate Valid()
      reads this
    {
      && ClosedGraph(staticAdjacency)
      && priorities.Keys == staticAdjacency.Keys
      && RowsMatch(rows, priorities, queued)
    }

    /** The priorities are those of the edges known so far. */
    ghost predicate Numbered()
      reads this
    {
      && IsNumbering(priorities, staticAdjacency.Keys)
      && RootsFirst(priorities, roots, AllEdges(staticAdjacency, discoveredEdges))
    }

    constructor (roots: seq<nat>, staticAdjacency: Adjacency)
      requires ClosedGraph(staticAdjacency)
      ensures Valid() && queued == {} && this.staticAdjacency == staticAdjacency && this.roots == roots
      ensures Numbered()
    {
      this.roots, this.staticAdjacency := roots, staticAdjacency;
      discoveredEdges, queued, rows := {}, {}, {};
      new;
      priorities := NativeRpoPriorities(roots, staticAdjacency, {});
    }

    method Queue(key: WorkKey)
      requires Valid() && key.rva in staticAdjacency
      modifies this`queued, this`rows
      ensures Valid() && queued == old(queued) + {key}
    {
      if key !in queued {
        queued := queued + {key};
        rows := rows + {RowOf(priorities, key)};
      }
    }

    method QueueAll(keys: set<WorkKey>)
      requires Valid() && forall key | key in keys :: key.rva in staticAdjacency
      modifies this`queued, this`rows
      ensures Valid() && queued == old(queued) + keys
    {
      var todo := keys;
      while todo != {}
        invariant todo <= keys && Valid()
        invariant queued + todo == old(queued) + keys
      {
        var key :| key in todo;
        MoveOne(queued, todo, key);
        todo := todo - {key};
        Queue(key);
      }
    }

    /** Takes the first row. */
    method Pop() returns (key: Option<WorkKey>)
      requires Valid()
      modifies this`queued, this`rows
      ensures Valid()
      ensures key.None? <==> old(queued) == {}
      ensures key.None? ==> queued == old(queued)
      ensures key.Some? ==>
                && key.value in old(queued) && queued == old(queued) - {key.value}
                && forall other | other in queued :: RowLess(RowOf(priorities, key.value), RowOf(priorities, other))
    {
      assert rows == {} ==> queued == {} by { EmptyRows(rows, priorities, queued); }
      if rows == {} { return None; }
      FirstRow(rows);
      var row: Row :| IsFirst(row, rows);
      RemoveRow(rows, priorities, queued, row);
      assert forall other | other in queued :: RowOf(priorities, other) in rows;
      rows := rows - {row};
      queued := queued - {row.key};
      key := Some(row.key);
    }

    /** Records discovered edges; a change renumbers everything and requeues every queued key. */
    method Discover(source: nat, targets: set<nat>)
      requires Valid()
      modifies this`discoveredEdges, this`priorities, this`rows
      ensures Valid() && queued == old(queued)
      ensures old(Numbered()) ==> Numbered()
      ensures discoveredEdges == old(discoveredEdges) + KnownEdges(source, targets, staticAdjacency.Keys)
    {
      var added := KnownEdges(source, targets, staticAdjacency.Keys);
      if added <= discoveredEdges {
        assert discoveredEdges + added == discoveredEdges;
        return;
      }
      Renumber(discoveredEdges + added);
    }

    method Renumber(edges: set<(nat, nat)>)
      requires Valid()
      modifies this`discoveredEdges, this`priorities, this`rows
      ensures Valid() && Numbered() && queued == old(queued) && discoveredEdges == edges
    {
      var numbers := NativeRpoPriorities(roots, staticAdjacency, edges);
      var renumbered := Rows(numbers, queued);
      discoveredEdges, priorities, rows := edges, numbers, renumbered;
    }
  }

  lemma {:induction false} FirstRow(rows: set<Row>)
    requires rows != {}
    ensures exists row :: IsFirst(row, rows)
  {
    var row :| row in rows;
    var rest := rows - {row};
    assert rows == rest + {row};
    if rest == {} {
      assert IsFirst(row, rows);
    } else {
      FirstRow(rest);
      var first :| IsFirst(first, rest);
      FirstOfTwo(row, first, rest);
      assert IsFirst(row, rows) || IsFirst(first, rows);
    }
  }

  lemma FirstOfTwo(row: Row, first: Row, rest: set<Row>)
    requires IsFirst(first, rest)
    ensures IsFirst(row, rest + {row}) || IsFirst(first, rest + {row})
  {
    SeqLessTotal(Code(row), Code(first));
    if RowLess(row, first) {
      forall other | other in rest ensures RowLess(row, other) {
        if other != first { SeqLessTransitive(Code(row), Code(first), Code(other)); }
      }
    } else if row != first {
      if Code(row) == Code(first) { CodeInjective(row, first); }
    }
  }

  /** There is one first row, and none has less priority. */
  lemma FirstRowUnique(row: Row, other: Row, rows: set<Row>)
    requires IsFirst(row, rows) && other in rows
    ensures row.priority <= other.priority
    ensures IsFirst(other, rows) ==> other == row
  {
    if other != row {
      assert RowLess(row, other);
      if IsFirst(other, rows) {
        SeqLessTransitive(Code(row), Code(other), Code(row));
        SeqLessIrreflexive(Code(row));
      }
    }
  }

  // ----- call contexts stay in a finite universe

  /** NativeFunctionContext::child: the call string keeps its last `limit` entries. */
  function Child(context: Context, target: nat, instruction: nat, limit: nat): Context {
    var grown := context.callString + [instruction];
    Context(context.root, target, if |grown| > limit then grown[|grown| - limit..] else grown)
  }

  /** Call strings of known call sites up to a length. */
  function Strings(sites: set<nat>, limit: nat): set<seq<nat>> {
    if limit == 0 then {[]} else {[]} + Extensions(Strings(sites, limit - 1), sites)
  }

  function Extensions(shorter: set<seq<nat>>, sites: set<nat>): set<seq<nat>> {
    set s, x | s in shorter && x in sites :: [x] + s
  }

  lemma ExtensionsExactly(s: seq<nat>, shorter: set<seq<nat>>, sites: set<nat>)
    ensures s in Extensions(shorter, sites) <==> s != [] && s[0] in sites && s[1..] in shorter
  {
    if s in Extensions(shorter, sites) {
      var suffix, x :| suffix in shorter && x in sites && s == [x] + suffix;
      assert s[1..] == suffix;
    }
    if s != [] { assert s == [s[0]] + s[1..]; }
  }

  predicate AllIn(s: seq<nat>, sites: set<nat>) { s == [] || (s[0] in sites && AllIn(s[1..], sites)) }

  lemma {:induction false} StringsExactly(s: seq<nat>, sites: set<nat>, limit: nat)
    ensures s in Strings(sites, limit) <==> |s| <= limit && AllIn(s, sites)
    decreases limit
  {
    if limit > 0 {
      ExtensionsExactly(s, Strings(sites, limit - 1), sites);
      if s != [] { StringsExactly(s[1..], sites, limit - 1); }
    }
  }

  lemma {:induction false} AllInAppend(s: seq<nat>, x: nat, sites: set<nat>)
    ensures AllIn(s + [x], sites) <==> AllIn(s, sites) && x in sites
  {
    if s == [] {
      assert [] + [x] == [x];
    } else {
      assert (s + [x])[1..] == s[1..] + [x];
      AllInAppend(s[1..], x, sites);
    }
  }

  lemma {:induction false} AllInSuffix(s: seq<nat>, k: nat, sites: set<nat>)
    requires AllIn(s, sites) && k <= |s|
    ensures AllIn(s[k..], sites)
  {
    if k > 0 {
      AllInSuffix(s[1..], k - 1, sites);
      assert s[1..][k - 1..] == s[k..];
    }
  }

  /** The finite set every context of a run belongs to. */
  function ContextUniverse(roots: set<nat>, entries: set<nat>, sites: set<nat>, limit: nat): set<Context> {
    set r, e, s | r in roots && e in entries && s in Strings(sites, limit) :: Context(r, e, s)
  }

  /** A child context of the universe stays in it, so a run can only ever meet finitely many work keys. */
  lemma ChildInUniverse(context: Context, target: nat, instruction: nat, roots: set<nat>, entries: set<nat>, sites: set<nat>,
                        limit: nat)
    requires context in ContextUniverse(roots, entries, sites, limit) && target in entries && instruction in sites
    ensures Child(context, target, instruction, limit) in ContextUniverse(roots, entries, sites, limit)
  {
    var child := Child(context, target, instruction, limit);
    var grown := context.callString + [instruction];
    StringsExactly(context.callString, sites, limit);
    AllInAppend(context.callString, instruction, sites);
    AllInSuffix(grown, if |grown| > limit then |grown| - limit else 0, sites);
    assert grown[0..] == grown;
    StringsExactly(child.callString, sites, limit);
  }

  lemma {:induction false} AllInExactly(s: seq<nat>, sites: set<nat>)
    ensures AllIn(s, sites) <==> forall i | 0 <= i < |s| :: s[i] in sites
  {
    if s != [] {
      AllInExactly(s[1..], sites);
      assert forall i | 1 <= i < |s| :: s[i] == s[1..][i - 1];
    }
  }

  /** The universe holds exactly the contexts of known roots, entries and call sites whose call string fits the limit. */
  lemma UniverseExactly(context: Context, roots: set<nat>, entries: set<nat>, sites: set<nat>, limit: nat)
    ensures context in ContextUniverse(roots, entries, sites, limit)
        <==> context.root in roots && context.entry in entries && |context.callString| <= limit
             && forall i | 0 <= i < |context.callString| :: context.callString[i] in sites
  {
    StringsExactly(context.callString, sites, limit);
    AllInExactly(context.callString, sites);
    assert context == Context(context.root, context.entry, context.callString);
  }
}
