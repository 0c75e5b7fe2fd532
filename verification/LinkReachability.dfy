/** The reachability and root-provenance fixpoint over link symbols and relocations. */
module LinkReachability {
  import opened Identities
  import opened Sets

  datatype Symbol = Symbol(isFunction: bool, reachable: bool, roots: set<nat>)

  /** A direct-control relocation's own reachability is fixed by the closure; every other kind follows its source. */
  datatype Relocation = Relocation(direct: bool, source: string, targets: seq<string>, reachable: bool)

  datatype Graph = Graph(symbols: map<string, Symbol>, relocations: seq<Relocation>)

  predicate WellLinked(g: Graph) {
    forall i | 0 <= i < |g.relocations| :: WellPlaced(g.symbols.Keys, g.relocations[i])
  }

  predicate WellPlaced(ids: set<string>, r: Relocation) {
    r.source in ids && forall k | 0 <= k < |r.targets| :: r.targets[k] in ids
  }

  // ----- the specification: chains of relocations in the graph as it was handed in

  predicate Into(g: Graph, i: nat, s: string) {
    i < |g.relocations| && s in g.relocations[i].targets && s in g.symbols && !g.symbols[s].isFunction
  }

  predicate Opens(g: Graph, i: nat)
    requires WellLinked(g) && i < |g.relocations|
  {
    var r := g.relocations[i];
    if r.direct then r.reachable else g.symbols[r.source].reachable
  }

  /** Relocations leading to s: the first one is reachable by itself, each later one starts where the one before ends. */
  predicate Chain(g: Graph, path: seq<nat>, s: string)
    requires WellLinked(g)
  {
    && path != []
    && var last := path[|path| - 1];
       && Into(g, last, s)
       && if |path| == 1 then Opens(g, last)
          else !g.relocations[last].direct && Chain(g, path[..|path| - 1], g.relocations[last].source)
  }

  ghost predicate Reached(g: Graph, s: string)
    requires WellLinked(g)
  {
    s in g.symbols && (g.symbols[s].reachable || exists path :: Chain(g, path, s))
  }

  ghost predicate Active(g: Graph, i: nat)
    requires WellLinked(g) && i < |g.relocations|
  {
    var r := g.relocations[i];
    if r.direct then r.reachable else Reached(g, r.source)
  }

  /** Reachable relocations that carry the root x from a symbol that owns it to s. */
  ghost predicate Carries(g: Graph, path: seq<nat>, x: nat, s: string)
    requires WellLinked(g)
  {
    if path == [] then s in g.symbols && x in g.symbols[s].roots
    else
      var last := path[|path| - 1];
      Into(g, last, s) && Active(g, last) && Carries(g, path[..|path| - 1], x, g.relocations[last].source)
  }

  ghost predicate Rooted(g: Graph, x: nat, s: string)
    requires WellLinked(g)
  {
    exists path :: Carries(g, path, x, s)
  }

  // ----- what one relocation does

  function Touched(t: Symbol, roots: set<nat>): Symbol {
    if t.isFunction then t else t.(reachable := true, roots := t.roots + roots)
  }

  function Spread(symbols: map<string, Symbol>, targets: seq<string>, roots: set<nat>): map<string, Symbol> {
    map s | s in symbols :: if s in targets then Touched(symbols[s], roots) else symbols[s]
  }

  /** Symbols never lose anything, and gain only what the specification grants. */
  ghost predicate Justified(g: Graph, symbols: map<string, Symbol>)
    requires WellLinked(g)
  {
    && symbols.Keys == g.symbols.Keys
    && forall s | s in symbols :: JustifiedAt(g, symbols[s], s)
  }

  ghost predicate JustifiedAt(g: Graph, now: Symbol, s: string)
    requires WellLinked(g) && s in g.symbols
  {
    && now.isFunction == g.symbols[s].isFunction
    && (g.symbols[s].reachable ==> now.reachable) && g.symbols[s].roots <= now.roots
    && (now.reachable ==> Reached(g, s))
    && (forall x | x in now.roots :: Rooted(g, x, s))
  }

  /** Only the reachable flags of relocations that follow their source may differ. */
  predicate SameButFlags(g: Graph, relocations: seq<Relocation>) {
    && |relocations| == |g.relocations|
    && forall i | 0 <= i < |relocations| ::
         && relocations[i] == g.relocations[i].(reachable := relocations[i].reachable)
         && (relocations[i].direct ==> relocations[i].reachable == g.relocations[i].reachable)
  }

  lemma ReachedAlong(g: Graph, i: nat, s: string)
    requires WellLinked(g) && Into(g, i, s) && Active(g, i)
    ensures Reached(g, s)
  {
    var r := g.relocations[i];
    if r.direct || g.symbols[r.source].reachable {
      assert Chain(g, [i], s);
    } else {
      var path :| Chain(g, path, r.source);
      assert (path + [i])[..|path|] == path;
      assert Chain(g, path + [i], s);
    }
  }

  lemma RootedAlong(g: Graph, i: nat, x: nat, s: string)
    requires WellLinked(g) && Into(g, i, s) && Active(g, i) && Rooted(g, x, g.relocations[i].source)
    ensures Rooted(g, x, s)
  {
    var path :| Carries(g, path, x, g.relocations[i].source);
    assert (path + [i])[..|path|] == path;
    assert Carries(g, path + [i], x, s);
  }

  /** Following an active relocation is justified. */
  lemma SpreadJustified(g: Graph, symbols: map<string, Symbol>, i: nat)
    requires WellLinked(g) && Justified(g, symbols) && i < |g.relocations| && Active(g, i)
    ensures Justified(g, Spread(symbols, g.relocations[i].targets, symbols[g.relocations[i].source].roots))
  {
    var r := g.relocations[i];
    var roots := symbols[r.source].roots;
    var after := Spread(symbols, r.targets, roots);
    forall s | s in after ensures JustifiedAt(g, after[s], s) {
      assert JustifiedAt(g, symbols[s], s);
      assert JustifiedAt(g, symbols[r.source], r.source);
      if s in r.targets && !symbols[s].isFunction {
        ReachedAlong(g, i, s);
        forall x | x in after[s].roots ensures Rooted(g, x, s) {
          if x !in symbols[s].roots { RootedAlong(g, i, x, s); }
        }
      }
    }
  }

  // ----- the marks still missing bound the loop

  /** A mark is the reachable flag or one root. */
  type Mark = Option<nat>

  predicate Bears(s: Symbol, m: Mark) { if m.None? then s.reachable else m.value in s.roots }

  ghost function AllRoots(symbols: map<string, Symbol>): set<nat> { set s, x | s in symbols && x in symbols[s].roots :: x }

  ghost function Marks(roots: set<nat>): set<Mark> { {None} + set x | x in roots :: Some(x) }

  ghost function Unmarked(symbols: map<string, Symbol>, marks: set<Mark>): set<(string, Mark)> {
    set s, m | s in symbols && m in marks && !Bears(symbols[s], m) :: (s, m)
  }

  lemma SpreadMarks(symbols: map<string, Symbol>, targets: seq<string>, roots: set<nat>, universe: set<nat>)
    requires roots <= universe && AllRoots(symbols) <= universe
    ensures AllRoots(Spread(symbols, targets, roots)) <= universe
    ensures Spread(symbols, targets, roots) == symbols
        || |Unmarked(Spread(symbols, targets, roots), Marks(universe))| < |Unmarked(symbols, Marks(universe))|
  {
    var after := Spread(symbols, targets, roots);
    forall x | x in AllRoots(after) ensures x in universe {
      var s :| s in after && x in after[s].roots;
      if x !in roots { assert x in AllRoots(symbols); }
    }
    if after != symbols {
      var s :| s in symbols && after[s] != symbols[s];
      MoreMarks(symbols, after, s, universe);
    }
  }

  lemma MoreMarks(before: map<string, Symbol>, after: map<string, Symbol>, s: string, universe: set<nat>)
    requires before.Keys == after.Keys && s in before && before[s] != after[s]
    requires forall t | t in before :: before[t].isFunction == after[t].isFunction
               && (before[t].reachable ==> after[t].reachable) && before[t].roots <= after[t].roots
    requires AllRoots(after) <= universe
    ensures |Unmarked(after, Marks(universe))| < |Unmarked(before, Marks(universe))|
  {
    var m: Mark := None;
    if after[s].reachable == before[s].reachable {
      var x :| x in after[s].roots && x !in before[s].roots;
      assert x in AllRoots(after);
      m := Some(x);
    }
    assert m in Marks(universe) && Bears(after[s], m) && !Bears(before[s], m);
    var fewer, more := Unmarked(after, Marks(universe)), Unmarked(before, Marks(universe));
    forall p | p in fewer ensures p in more { }
    assert (s, m) in more && (s, m) !in fewer;
    SubsetCard(fewer, more);
  }

  // ----- what holds once a pass changes nothing

  /** Relocation i asks for nothing more. */
  predicate Closed(symbols: map<string, Symbol>, r: Relocation) {
    && r.source in symbols
    && (!r.direct ==> r.reachable == symbols[r.source].reachable)
    && (r.reachable ==> forall s | s in r.targets && s in symbols && !symbols[s].isFunction ::
          symbols[s].reachable && symbols[r.source].roots <= symbols[s].roots)
  }

  lemma {:induction false} ClosedReaches(g: Graph, symbols: map<string, Symbol>, relocations: seq<Relocation>, path: seq<nat>,
                                         s: string)
    requires WellLinked(g) && Justified(g, symbols) && SameButFlags(g, relocations)
    requires forall i | 0 <= i < |relocations| :: Closed(symbols, relocations[i])
    requires Chain(g, path, s)
    ensures symbols[s].reachable
  {
    var last := path[|path| - 1];
    var r := g.relocations[last];
    assert Closed(symbols, relocations[last]) && JustifiedAt(g, symbols[s], s) && JustifiedAt(g, symbols[r.source], r.source);
    if |path| > 1 { ClosedReaches(g, symbols, relocations, path[..|path| - 1], r.source); }
  }

  lemma ClosedActive(g: Graph, symbols: map<string, Symbol>, relocations: seq<Relocation>, i: nat)
    requires WellLinked(g) && Justified(g, symbols) && SameButFlags(g, relocations)
    requires forall j | 0 <= j < |relocations| :: Closed(symbols, relocations[j])
    requires i < |relocations|
    ensures relocations[i].reachable <==> Active(g, i)
  {
    var r := g.relocations[i];
    assert Closed(symbols, relocations[i]) && JustifiedAt(g, symbols[r.source], r.source);
    if !r.direct && Active(g, i) && !g.symbols[r.source].reachable {
      var path :| Chain(g, path, r.source);
      ClosedReaches(g, symbols, relocations, path, r.source);
    }
  }

  lemma {:induction false} ClosedCarries(g: Graph, symbols: map<string, Symbol>, relocations: seq<Relocation>, path: seq<nat>,
                                         x: nat, s: string)
    requires WellLinked(g) && Justified(g, symbols) && SameButFlags(g, relocations)
    requires forall i | 0 <= i < |relocations| :: Closed(symbols, relocations[i])
    requires Carries(g, path, x, s)
    ensures s in symbols && x in symbols[s].roots
  {
    assert s in g.symbols ==> JustifiedAt(g, symbols[s], s);
    if path != [] {
      var last := path[|path| - 1];
      ClosedCarries(g, symbols, relocations, path[..|path| - 1], x, g.relocations[last].source);
      ClosedActive(g, symbols, relocations, last);
      assert Closed(symbols, relocations[last]);
    }
  }

  /** The marks are exactly the ones the chains grant. */
  ghost predicate Exactly(g: Graph, symbols: map<string, Symbol>)
    requires WellLinked(g)
  {
    && symbols.Keys == g.symbols.Keys
    && forall s | s in symbols ::
         && symbols[s].isFunction == g.symbols[s].isFunction
         && (symbols[s].reachable <==> Reached(g, s))
         && (forall x :: x in symbols[s].roots <==> Rooted(g, x, s))
  }

  lemma ClosedIsExact(g: Graph, symbols: map<string, Symbol>, relocations: seq<Relocation>)
    requires WellLinked(g) && Justified(g, symbols) && SameButFlags(g, relocations)
    requires forall i | 0 <= i < |relocations| :: Closed(symbols, relocations[i])
    ensures Exactly(g, symbols)
    ensures forall i | 0 <= i < |relocations| :: relocations[i].reachable <==> Active(g, i)
  {
    forall s | s in symbols ensures symbols[s].reachable <==> Reached(g, s) {
      assert JustifiedAt(g, symbols[s], s);
      if Reached(g, s) && !g.symbols[s].reachable {
        var path :| Chain(g, path, s);
        ClosedReaches(g, symbols, relocations, path, s);
      }
    }
    forall s, x | s in symbols ensures x in symbols[s].roots <==> Rooted(g, x, s) {
      assert JustifiedAt(g, symbols[s], s);
      if Rooted(g, x, s) {
        var path :| Carries(g, path, x, s);
        ClosedCarries(g, symbols, relocations, path, x, s);
      }
    }
    forall i | 0 <= i < |relocations| ensures relocations[i].reachable <==> Active(g, i) {
      ClosedActive(g, symbols, relocations, i);
    }
  }

  class SemanticLink {
    var symbols: map<string, Symbol>
    var relocations: seq<Relocation>

    ghost function Now(): Graph
      reads this
    {
      Graph(symbols, relocations)
    }

    ghost predicate Tracks(g: Graph, universe: set<nat>)
      reads this
    {
      WellLinked(g) && Justified(g, symbols) && SameButFlags(g, relocations) && AllRoots(symbols) <= universe
    }

    /** Visits one relocation: it takes over its source's flag, and a reachable one marks its targets. */
    method Visit(i: nat, ghost g: Graph, ghost universe: set<nat>) returns (changed: bool)
      requires Tracks(g, universe) && i < |relocations|
      modifies this
      ensures Tracks(g, universe)
      ensures |relocations| == old(|relocations|)
      ensures forall j | 0 <= j < |relocations| && j != i :: relocations[j] == old(relocations)[j]
      ensures (!relocations[i].direct ==> relocations[i].reachable == old(symbols[g.relocations[i].source].reachable))
      ensures changed <==> symbols != old(symbols) || relocations != old(relocations)
      ensures symbols == old(symbols) ==> Closed(symbols, relocations[i])
      ensures symbols == old(symbols)
          || |Unmarked(symbols, Marks(universe))| < old(|Unmarked(symbols, Marks(universe))|)
    {
      changed := false;
      var r := relocations[i];
      var source := symbols[r.source];
      if !r.direct && r.reachable != source.reachable {
        relocations := relocations[i := r.(reachable := source.reachable)];
        changed := true;
      }
      if !relocations[i].reachable { return; }
      assert JustifiedAt(g, source, r.source);
      assert Active(g, i);
      SpreadJustified(g, symbols, i);
      SpreadMarks(symbols, r.targets, source.roots, universe);
      var marked := MarkTargets(r.targets, source.roots);
      changed := changed || marked;
    }

    method MarkTargets(targets: seq<string>, roots: set<nat>) returns (changed: bool)
      requires forall k | 0 <= k < |targets| :: targets[k] in symbols
      modifies this`symbols
      ensures symbols == Spread(old(symbols), targets, roots)
      ensures changed <==> symbols != old(symbols)
    {
      changed := false;
      ghost var before := symbols;
      assert symbols == Spread(before, targets[..0], roots);
      for k := 0 to |targets|
        invariant symbols == Spread(before, targets[..k], roots)
        invariant changed <==> symbols != before
      {
        var target := symbols[targets[k]];
        SpreadOne(before, targets[..k], targets[k], roots);
        assert targets[..k + 1] == targets[..k] + [targets[k]];
        if target.isFunction { continue; }
        ghost var was := symbols;
        symbols := symbols[targets[k] := target.(reachable := true, roots := target.roots + roots)];
        if !target.reachable || target.roots + roots != target.roots {
          changed := true;
          assert symbols[targets[k]] != was[targets[k]];
        } else {
          assert symbols == was;
        }
      }
      assert targets[..|targets|] == targets;
    }

    /** One pass over the relocations in order. */
    method Pass(ghost g: Graph, ghost universe: set<nat>) returns (changed: bool)
      requires Tracks(g, universe)
      modifies this
      ensures Tracks(g, universe)
      ensures !changed ==> symbols == old(symbols) && forall i | 0 <= i < |relocations| :: Closed(symbols, relocations[i])
      ensures |Unmarked(symbols, Marks(universe))| <= old(|Unmarked(symbols, Marks(universe))|)
      ensures changed && |Unmarked(symbols, Marks(universe))| == old(|Unmarked(symbols, Marks(universe))|)
          ==> Synced(symbols, relocations) && !old(Synced(symbols, relocations))
    {
      changed := false;
      ghost var before, flags := symbols, relocations;
      for i := 0 to |relocations|
        invariant Tracks(g, universe) && |relocations| == |flags|
        invariant symbols == before || |Unmarked(symbols, Marks(universe))| < |Unmarked(before, Marks(universe))|
        invariant changed <==> symbols != before || relocations != flags
        invariant forall j | i <= j < |relocations| :: relocations[j] == flags[j]
        invariant symbols == before ==> forall j | 0 <= j < i :: Closed(symbols, relocations[j])
      {
        var one := Visit(i, g, universe);
        changed := changed || one;
      }
      if changed && symbols == before {
        SyncedMeansSame(g, before, flags, relocations);
      }
    }

    /** Runs passes until one changes nothing: exactly the chains' marks are set, and every relocation is reachable
        exactly when it is active. */
    method Close()
      requires WellLinked(Now())
      modifies this
      ensures WellLinked(old(Now())) && Exactly(old(Now()), symbols) && SameButFlags(old(Now()), relocations)
      ensures forall i | 0 <= i < |relocations| :: relocations[i].reachable <==> Active(old(Now()), i)
    {
      ghost var g, universe := Now(), AllRoots(symbols);
      StartJustified(g);
      var changed := true;
      while changed
        invariant Tracks(g, universe)
        invariant !changed ==> forall i | 0 <= i < |relocations| :: Closed(symbols, relocations[i])
        decreases |Unmarked(symbols, Marks(universe))|, if Synced(symbols, relocations) then 0 else 1, if changed then 1 else 0
      {
        changed := Pass(g, universe);
      }
      ClosedIsExact(g, symbols, relocations);
    }
  }

  /** Every relocation that follows its source shows the source's flag. */
  predicate Synced(symbols: map<string, Symbol>, relocations: seq<Relocation>) {
    forall i | 0 <= i < |relocations| :: Follows(symbols, relocations[i])
  }

  predicate Follows(symbols: map<string, Symbol>, r: Relocation) {
    r.source in symbols && (!r.direct ==> r.reachable == symbols[r.source].reachable)
  }

  /** When no symbol moved, what changed were flags out of step with their sources. */
  lemma SyncedMeansSame(g: Graph, symbols: map<string, Symbol>, before: seq<Relocation>, after: seq<Relocation>)
    requires SameButFlags(g, before) && SameButFlags(g, after) && before != after
    requires forall i | 0 <= i < |after| :: Closed(symbols, after[i])
    ensures Synced(symbols, after) && !Synced(symbols, before)
  {
    var i :| 0 <= i < |after| && before[i] != after[i];
    assert Closed(symbols, after[i]);
    assert !Follows(symbols, before[i]);
  }

  lemma StartJustified(g: Graph)
    requires WellLinked(g)
    ensures Justified(g, g.symbols) && SameButFlags(g, g.relocations)
  {
    forall s | s in g.symbols ensures JustifiedAt(g, g.symbols[s], s) {
      forall x | x in g.symbols[s].roots ensures Rooted(g, x, s) { assert Carries(g, [], x, s); }
    }
  }

  // ----- consequences

  ghost predicate ClosedSet(g: Graph, marked: set<string>)
    requires WellLinked(g)
  {
    forall i, s | 0 <= i < |g.relocations| && Into(g, i, s) :: Passes(g, i, marked) ==> s in marked
  }

  ghost predicate Passes(g: Graph, i: nat, marked: set<string>)
    requires i < |g.relocations|
  {
    if g.relocations[i].direct then g.relocations[i].reachable else g.relocations[i].source in marked
  }

  /** The reached symbols are the least set that holds the initial ones and is closed under the relocations. */
  lemma {:induction false} ReachedIsLeast(g: Graph, marked: set<string>, path: seq<nat>, s: string)
    requires WellLinked(g) && ClosedSet(g, marked)
    requires forall t | t in g.symbols && g.symbols[t].reachable :: t in marked
    requires Chain(g, path, s)
    ensures s in marked
  {
    var last := path[|path| - 1];
    if |path| > 1 { ReachedIsLeast(g, marked, path[..|path| - 1], g.relocations[last].source); }
    assert Passes(g, last, marked);
  }

  lemma ReachedIsClosed(g: Graph)
    requires WellLinked(g)
    ensures ClosedSet(g, set s | s in g.symbols && Reached(g, s))
  {
    var marked := set s | s in g.symbols && Reached(g, s);
    forall i, s | 0 <= i < |g.relocations| && Into(g, i, s) && Passes(g, i, marked) ensures s in marked {
      ReachedAlong(g, i, s);
    }
  }

  /** No reachable symbol lacks provenance, provided the initially reachable symbols and the sources of the reachable
      direct relocations have theirs. */
  lemma {:induction false} ProvenanceAlong(g: Graph, path: seq<nat>, s: string) returns (x: nat)
    requires WellLinked(g) && Chain(g, path, s)
    requires forall t | t in g.symbols && g.symbols[t].reachable :: g.symbols[t].roots != {}
    requires forall i | 0 <= i < |g.relocations| && g.relocations[i].direct && g.relocations[i].reachable ::
               g.symbols[g.relocations[i].source].roots != {}
    ensures Rooted(g, x, s)
  {
    var last := path[|path| - 1];
    var source := g.relocations[last].source;
    if |path| > 1 {
      x := ProvenanceAlong(g, path[..|path| - 1], source);
      assert Chain(g, path[..|path| - 1], source);
      assert Reached(g, source);
    } else {
      x :| x in g.symbols[source].roots;
      assert Carries(g, [], x, source);
    }
    RootedAlong(g, last, x, s);
  }

  /** One more target is one more symbol touched; touching twice is touching once. */
  lemma SpreadOne(symbols: map<string, Symbol>, targets: seq<string>, target: string, roots: set<nat>)
    requires target in symbols
    ensures var spread := Spread(symbols, targets, roots);
            && Spread(symbols, targets + [target], roots) == spread[target := Touched(spread[target], roots)]
            && (spread == symbols || Spread(symbols, targets + [target], roots) != symbols)
  {
    var spread, more := Spread(symbols, targets, roots), Spread(symbols, targets + [target], roots);
    assert more == spread[target := Touched(spread[target], roots)];
    if spread != symbols {
      var s :| s in symbols && spread[s] != symbols[s];
      assert more[s] != symbols[s];
    }
  }
}
