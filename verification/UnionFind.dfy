/** Union-find with path compression, where the smaller root always wins: over an array and over a dictionary. */
module UnionFind {

  type Parents = map<nat, nat>

  /** Following a parent keeps the root, only a root is its own parent, and parents never lie above their children. */
  ghost predicate UpKeeps(p: Parents, roots: map<nat, nat>, k: nat) {
    k in p ==>
      && k in roots && p[k] in p && p[k] in roots && p[k] <= k
      && roots[p[k]] == roots[k] && (p[k] == k ==> roots[k] == k)
  }

  /** The roots that a parent table leads to. */
  ghost predicate LeadsTo(p: Parents, roots: map<nat, nat>) {
    roots.Keys == p.Keys && forall k {:trigger UpKeeps(p, roots, k)} :: UpKeeps(p, roots, k)
  }

  lemma {:induction false} RootIsTop(p: Parents, roots: map<nat, nat>, k: nat)
    requires LeadsTo(p, roots) && k in p
    ensures roots[k] in p && roots[k] <= k && p[roots[k]] == roots[k] && roots[roots[k]] == roots[k]
    decreases k
  {
    assert UpKeeps(p, roots, k);
    if p[k] != k { RootIsTop(p, roots, p[k]); }
  }

  /** The table determines its roots. */
  lemma {:induction false} RootsUnique(p: Parents, roots: map<nat, nat>, roots': map<nat, nat>, k: nat)
    requires LeadsTo(p, roots) && LeadsTo(p, roots') && k in p
    ensures roots[k] == roots'[k]
    decreases k
  {
    assert UpKeeps(p, roots, k) && UpKeeps(p, roots', k);
    if p[k] != k { RootsUnique(p, roots, roots', p[k]); }
  }

  // ----- the equivalence closure of a set of pairs

  predicate Joined(pairs: set<(nat, nat)>, a: nat, b: nat) { (a, b) in pairs || (b, a) in pairs }

  predicate Walk(pairs: set<(nat, nat)>, path: seq<nat>, a: nat, b: nat) {
    && path != [] && path[0] == a && path[|path| - 1] == b
    && forall i | 0 <= i < |path| - 1 :: Joined(pairs, path[i], path[i + 1])
  }

  /** The reflexive, symmetric and transitive closure. */
  ghost predicate Linked(pairs: set<(nat, nat)>, a: nat, b: nat) { exists path :: Walk(pairs, path, a, b) }

  lemma LinkedReflexive(pairs: set<(nat, nat)>, a: nat)
    ensures Linked(pairs, a, a)
  {
    assert Walk(pairs, [a], a, a);
  }

  lemma LinkedPair(pairs: set<(nat, nat)>, a: nat, b: nat)
    requires Joined(pairs, a, b)
    ensures Linked(pairs, a, b)
  {
    assert Walk(pairs, [a, b], a, b);
  }

  lemma LinkedSymmetric(pairs: set<(nat, nat)>, a: nat, b: nat)
    requires Linked(pairs, a, b)
    ensures Linked(pairs, b, a)
  {
    var path :| Walk(pairs, path, a, b);
    var n := |path|;
    var back := seq(n, i requires 0 <= i < n => path[n - 1 - i]);
    forall i | 0 <= i < n - 1 ensures Joined(pairs, back[i], back[i + 1]) {
      assert Joined(pairs, path[n - 2 - i], path[n - 2 - i + 1]);
    }
    assert Walk(pairs, back, b, a);
  }

  lemma LinkedTransitive(pairs: set<(nat, nat)>, a: nat, b: nat, c: nat)
    requires Linked(pairs, a, b) && Linked(pairs, b, c)
    ensures Linked(pairs, a, c)
  {
    var first :| Walk(pairs, first, a, b);
    var second :| Walk(pairs, second, b, c);
    var all := first + second[1..];
    forall i | 0 <= i < |all| - 1 ensures Joined(pairs, all[i], all[i + 1]) {
      if i < |first| - 1 {
        assert Joined(pairs, first[i], first[i + 1]);
      } else {
        var j := i - |first| + 1;
        assert all[i] == second[j] && all[i + 1] == second[j + 1];
      }
    }
    assert Walk(pairs, all, a, c);
  }

  lemma LinkedMore(pairs: set<(nat, nat)>, more: set<(nat, nat)>, a: nat, b: nat)
    requires Linked(pairs, a, b) && pairs <= more
    ensures Linked(more, a, b)
  {
    var path :| Walk(pairs, path, a, b);
    assert forall i | 0 <= i < |path| - 1 :: Joined(pairs, path[i], path[i + 1]);
    assert Walk(more, path, a, b);
  }

  // ----- what the structure maintains

  /** Joined nodes agree, and every node is linked to its root. */
  ghost predicate Partition(m: map<nat, nat>, pairs: set<(nat, nat)>) {
    && (forall e | e in pairs :: e.0 in m && e.1 in m && m[e.0] == m[e.1])
    && (forall k {:trigger RootLinked(m, pairs, k)} :: RootLinked(m, pairs, k))
  }

  ghost predicate RootLinked(m: map<nat, nat>, pairs: set<(nat, nat)>, k: nat) { k in m ==> Linked(pairs, k, m[k]) }

  lemma {:induction false} WalkSameRoot(m: map<nat, nat>, pairs: set<(nat, nat)>, path: seq<nat>, a: nat, b: nat)
    requires Partition(m, pairs) && Walk(pairs, path, a, b) && a in m
    ensures b in m && m[a] == m[b]
  {
    if |path| > 1 {
      assert Joined(pairs, path[0], path[0 + 1]);
      forall i | 0 <= i < |path[1..]| - 1 ensures Joined(pairs, path[1..][i], path[1..][i + 1]) {
        assert Joined(pairs, path[i + 1], path[i + 1 + 1]);
      }
      WalkSameRoot(m, pairs, path[1..], path[1], b);
    }
  }

  /** Two nodes share a root exactly when the equalities link them. */
  lemma SameRootIffLinked(m: map<nat, nat>, pairs: set<(nat, nat)>, a: nat, b: nat)
    requires Partition(m, pairs) && a in m && b in m
    ensures m[a] == m[b] <==> Linked(pairs, a, b)
  {
    assert RootLinked(m, pairs, a) && RootLinked(m, pairs, b);
    if m[a] == m[b] {
      LinkedSymmetric(pairs, b, m[b]);
      LinkedTransitive(pairs, a, m[a], b);
    }
    if Linked(pairs, a, b) {
      var path :| Walk(pairs, path, a, b);
      WalkSameRoot(m, pairs, path, a, b);
    }
  }

  /** The root is the least node of the whole class. */
  lemma RootIsLeast(p: Parents, roots: map<nat, nat>, pairs: set<(nat, nat)>, a: nat, b: nat)
    requires LeadsTo(p, roots) && Partition(roots, pairs) && a in p && b in p && Linked(pairs, a, b)
    ensures Linked(pairs, a, roots[a]) && roots[a] <= b
  {
    RootIsTop(p, roots, b);
    assert RootLinked(roots, pairs, a);
    SameRootIffLinked(roots, pairs, a, b);
  }

  /** Pointing a node at its root changes no root. */
  lemma CompressKeeps(p: Parents, roots: map<nat, nat>, v: nat)
    requires LeadsTo(p, roots) && v in p
    ensures roots[v] in p && LeadsTo(p[v := roots[v]], roots)
  {
    RootIsTop(p, roots, v);
    var q := p[v := roots[v]];
    forall k ensures UpKeeps(q, roots, k) { assert UpKeeps(p, roots, k); }
  }

  ghost function Merged(m: map<nat, nat>, root: nat, child: nat): map<nat, nat> {
    map k | k in m :: if m[k] == child then root else m[k]
  }

  lemma AttachKeeps(p: Parents, roots: map<nat, nat>, root: nat, child: nat)
    requires LeadsTo(p, roots) && root in p && child in p && root < child && p[root] == root && p[child] == child
    ensures LeadsTo(p[child := root], Merged(roots, root, child))
  {
    assert UpKeeps(p, roots, root) && UpKeeps(p, roots, child);
    var q, merged := p[child := root], Merged(roots, root, child);
    forall k ensures UpKeeps(q, merged, k) { assert UpKeeps(p, roots, k); }
  }

  /** The two roots are linked once the pair is. */
  lemma AttachLinked(m: map<nat, nat>, pairs: set<(nat, nat)>, left: nat, right: nat)
    requires Partition(m, pairs) && left in m && right in m
    ensures Linked(pairs + {(left, right)}, m[left], m[right])
    ensures Linked(pairs + {(left, right)}, m[right], m[left])
  {
    var more := pairs + {(left, right)};
    assert RootLinked(m, pairs, left) && RootLinked(m, pairs, right);
    LinkedPair(more, left, right);
    LinkedMore(pairs, more, left, m[left]);
    LinkedMore(pairs, more, right, m[right]);
    LinkedSymmetric(more, left, m[left]);
    LinkedTransitive(more, m[left], left, right);
    LinkedTransitive(more, m[left], right, m[right]);
    LinkedSymmetric(more, m[left], m[right]);
  }

  /** Hanging the larger root under the smaller merges exactly two classes. */
  lemma MergedPartition(m: map<nat, nat>, pairs: set<(nat, nat)>, left: nat, right: nat, root: nat, child: nat)
    requires Partition(m, pairs) && left in m && right in m
    requires (root == m[left] && child == m[right]) || (root == m[right] && child == m[left])
    ensures Partition(Merged(m, root, child), pairs + {(left, right)})
  {
    var q, more := Merged(m, root, child), pairs + {(left, right)};
    AttachLinked(m, pairs, left, right);
    forall k ensures RootLinked(q, more, k) {
      assert RootLinked(m, pairs, k);
      if k in m {
        LinkedMore(pairs, more, k, m[k]);
        if m[k] == child { LinkedTransitive(more, k, child, root); }
      }
    }
    forall e | e in more ensures e.0 in q && e.1 in q && q[e.0] == q[e.1] {
      assert e in pairs || e == (left, right);
    }
  }

  lemma SamePairKeeps(m: map<nat, nat>, pairs: set<(nat, nat)>, left: nat, right: nat)
    requires Partition(m, pairs) && left in m && right in m && m[left] == m[right]
    ensures Partition(m, pairs + {(left, right)})
  {
    forall k ensures RootLinked(m, pairs + {(left, right)}, k) {
      assert RootLinked(m, pairs, k);
      if k in m { LinkedMore(pairs, pairs + {(left, right)}, k, m[k]); }
    }
  }

  /** Both outcomes of a union: the pair is already linked, or the larger root goes under the smaller. */
  lemma UnionKeeps(p: Parents, roots: map<nat, nat>, pairs: set<(nat, nat)>, left: nat, right: nat, root: nat, child: nat)
    requires LeadsTo(p, roots) && Partition(roots, pairs) && left in p && right in p
    requires root <= child
    requires (root == roots[left] && child == roots[right]) || (root == roots[right] && child == roots[left])
    ensures child in p
    ensures root == child ==> Partition(roots, pairs + {(left, right)})
    ensures root != child ==> LeadsTo(p[child := root], Merged(roots, root, child))
    ensures root != child ==> Partition(Merged(roots, root, child), pairs + {(left, right)})
  {
    RootIsTop(p, roots, left);
    RootIsTop(p, roots, right);
    if root == child {
      SamePairKeeps(roots, pairs, left, right);
    } else {
      AttachKeeps(p, roots, root, child);
      MergedPartition(roots, pairs, left, right, root, child);
    }
  }

  lemma FreshKeeps(p: Parents, m: map<nat, nat>, pairs: set<(nat, nat)>, v: nat)
    requires LeadsTo(p, m) && Partition(m, pairs) && v !in m
    ensures LeadsTo(p[v := v], m[v := v]) && Partition(m[v := v], pairs)
  {
    var q, grown := p[v := v], m[v := v];
    forall k ensures UpKeeps(q, grown, k) { assert UpKeeps(p, m, k); }
    LinkedReflexive(pairs, v);
    forall k ensures RootLinked(grown, pairs, k) { assert RootLinked(m, pairs, k); }
  }

  ghost function Below(size: nat): (s: set<nat>)
    ensures forall k: nat :: k in s <==> k < size
  {
    if size == 0 then {} else Below(size - 1) + {size - 1}
  }

  ghost function Identity(size: nat): map<nat, nat> { map k | k in Below(size) :: k }

  lemma IdentityKeeps(size: nat)
    ensures LeadsTo(Identity(size), Identity(size)) && Partition(Identity(size), {})
  {
    forall k ensures UpKeeps(Identity(size), Identity(size), k) { }
    forall k ensures RootLinked(Identity(size), {}, k) { LinkedReflexive({}, k); }
  }

  /** The native structure: nodes are positions in a vector. */
  class ArrayUnionFind {
    const parent: array<nat>
    ghost var roots: map<nat, nat>
    ghost var joined: set<(nat, nat)>

    ghost function View(): Parents
      reads parent
    {
      map k | k in Below(parent.Length) :: if k < parent.Length then parent[k] else 0
    }

    ghost predicate Valid()
      reads this, parent
    {
      LeadsTo(View(), roots) && Partition(roots, joined)
    }

    constructor (size: nat)
      ensures Valid() && parent.Length == size && joined == {} && fresh(parent)
    {
      parent := new nat[size](i => i);
      joined := {};
      roots := Identity(size);
      new;
      IdentityKeeps(size);
      assert View() == Identity(size);
    }

    /** Returns the root and points every node on the way at it. */
    method Find(value: nat) returns (root: nat)
      requires Valid() && value < parent.Length
      modifies parent
      ensures Valid() && value in roots && root == roots[value] && root < parent.Length
      decreases value
    {
      var up := parent[value];
      assert up == View()[value] && UpKeeps(View(), roots, value);
      if up != value {
        var top := Find(up);
        ghost var middle := View();
        CompressKeeps(middle, roots, value);
        parent[value] := top;
        assert View() == middle[value := top];
        root := parent[value];
      } else {
        root := value;
      }
    }

    method Union(left: nat, right: nat)
      requires Valid() && left < parent.Length && right < parent.Length
      modifies parent, this`joined, this`roots
      ensures Valid() && joined == old(joined) + {(left, right)}
    {
      var leftRoot := Find(left);
      var rightRoot := Find(right);
      if leftRoot < rightRoot { Attach(left, right, leftRoot, rightRoot); } else { Attach(left, right, rightRoot, leftRoot); }
    }

    method Attach(ghost left: nat, ghost right: nat, root: nat, child: nat)
      requires Valid() && left in roots && right in roots && root <= child < parent.Length
      requires (root == roots[left] && child == roots[right]) || (root == roots[right] && child == roots[left])
      modifies parent, this`joined, this`roots
      ensures Valid() && joined == old(joined) + {(left, right)}
    {
      ghost var p := View();
      UnionKeeps(p, roots, joined, left, right, root, child);
      joined := joined + {(left, right)};
      if root == child { return; }
      parent[child] := root;
      roots := Merged(roots, root, child);
      assert View() == p[child := root];
    }
  }

  /** Dictionary order: a key keeps the place of its first insertion. */
  function AddKey(order: seq<nat>, key: nat): seq<nat> { if key in order then order else order + [key] }

  /** The Python structure: a dictionary that adds nodes as they are met and remembers the order. */
  class DictUnionFind {
    var parent: Parents
    var order: seq<nat>
    ghost var roots: map<nat, nat>
    ghost var joined: set<(nat, nat)>

    ghost predicate Valid()
      reads this
    {
      LeadsTo(parent, roots) && Partition(roots, joined) && forall k :: k in parent <==> k in order
    }

    constructor ()
      ensures Valid() && parent == map[] && order == [] && joined == {}
    {
      parent, order, joined, roots := map[], [], {}, map[];
    }

    method Add(value: nat)
      requires Valid()
      modifies this`parent, this`order, this`roots
      ensures Valid() && value in parent
      ensures roots == if value in old(roots) then old(roots) else old(roots)[value := value]
      ensures order == AddKey(old(order), value)
    {
      if value !in parent {
        FreshKeeps(parent, roots, joined, value);
        parent := parent[value := value];
        order := order + [value];
        roots := roots[value := value];
      }
    }

    /** find on a node that is already there. */
    method FindKnown(value: nat) returns (root: nat)
      requires Valid() && value in parent
      modifies this`parent
      ensures Valid() && value in roots && root == roots[value]
      decreases value
    {
      var up := parent[value];
      assert UpKeeps(parent, roots, value);
      if up != value {
        var top := FindKnown(up);
        CompressKeeps(parent, roots, value);
        parent := parent[value := top];
      }
      root := parent[value];
    }

    method Find(value: nat) returns (root: nat)
      requires Valid()
      modifies this`parent, this`order, this`roots
      ensures Valid() && value in roots && root == roots[value]
      ensures roots == if value in old(roots) then old(roots) else old(roots)[value := value]
      ensures roots.Keys == old(roots.Keys) + {value}
      ensures order == AddKey(old(order), value)
    {
      Add(value);
      root := FindKnown(value);
    }

    method Union(left: nat, right: nat)
      requires Valid()
      modifies this
      ensures Valid() && joined == old(joined) + {(left, right)} && roots.Keys == old(roots.Keys) + {left, right}
      ensures order == AddKey(AddKey(old(order), left), right)
    {
      var leftRoot := Find(left);
      var rightRoot := Find(right);
      assert left in roots && leftRoot == roots[left];
      if leftRoot <= rightRoot { Attach(left, right, leftRoot, rightRoot); } else { Attach(left, right, rightRoot, leftRoot); }
    }

    /** Hangs the larger root under the smaller, if they differ. */
    method Attach(ghost left: nat, ghost right: nat, root: nat, child: nat)
      requires Valid() && left in roots && right in roots && root <= child
      requires (root == roots[left] && child == roots[right]) || (root == roots[right] && child == roots[left])
      modifies this`parent, this`roots, this`joined
      ensures Valid() && joined == old(joined) + {(left, right)} && roots.Keys == old(roots.Keys)
    {
      UnionKeeps(parent, roots, joined, left, right, root, child);
      joined := joined + {(left, right)};
      if root == child { return; }
      parent := parent[child := root];
      roots := Merged(roots, root, child);
    }
  }
}
