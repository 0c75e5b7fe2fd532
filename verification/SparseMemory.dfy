/** The sparse memory of an abstract state: explicit cells over implicit defaults, and the join that
    visits only the explicit cells and an index of the baseline. */
module SparseMemory {
  import opened Words
  import opened Identities
  import opened Values
  import opened Ranges

  datatype MemoryState = MemoryState(
    cells: map<MemoryKey, Value>,
    invalidated: set<MemoryRange>,
    allInvalidated: bool,
    effectInvalidated: set<MemoryRange>,
    effectAllInvalidated: bool,
    allocations: set<Identity>,
    written: set<MemoryKey>)

  datatype ObjectRow = ObjectRow(id: Identity, writable: bool)

  /** The immutable surroundings of every state: what memory held initially, and the known objects. */
  datatype Catalog = Catalog(baseline: map<MemoryKey, Value>, objects: seq<ObjectRow>)

  // ----- reading a state

  predicate InvalidatedAt(state: MemoryState, key: MemoryKey) {
    state.allInvalidated || Hit(state.invalidated, key)
  }

  function ImplicitValue(state: MemoryState, key: MemoryKey, baseline: map<MemoryKey, Value>): Value {
    if state.allInvalidated then UnknownScalar
    else if Hit(state.invalidated, key) then UnknownScalar
    else if key.owner.ObjectOwner? && key.owner.id.Allocation? && key.owner.id !in state.allocations then Bottom
    else if key in baseline then baseline[key]
    else if key.owner.ObjectOwner? && key.owner.id.Param? then Conflict
    else UnknownScalar
  }

  function MemoryValue(state: MemoryState, key: MemoryKey, baseline: map<MemoryKey, Value>): Value {
    if key in state.cells then state.cells[key] else ImplicitValue(state, key, baseline)
  }

  /** The obvious pointwise join at one key. */
  function DenseJoin(l: MemoryState, r: MemoryState, key: MemoryKey, baseline: map<MemoryKey, Value>, limit: nat): Value {
    SlotJoin(MemoryValue(l, key, baseline), MemoryValue(r, key, baseline), limit)
  }

  /** The state may hold the object that the key lies in. */
  predicate Possible(state: MemoryState, key: MemoryKey) {
    key.owner.ObjectOwner? && key.owner.id.Allocation? ==> key.owner.id in state.allocations
  }

  ghost predicate AllowsEveryWord(v: Value) { forall w: Word :: Below(Finite({w}, {}), v) }

  /** What a key without a cell reads as.  Nothing is known of invalidated memory, or of memory that exists and has no
      initial value, except that the latter holds no reference unless it belongs to a call parameter; memory that cannot
      exist reads as nothing, and the rest as it was initially. */
  lemma UnwrittenReads(state: MemoryState, key: MemoryKey, baseline: map<MemoryKey, Value>)
    requires key !in state.cells
    ensures var read, stale, param := MemoryValue(state, key, baseline), InvalidatedAt(state, key),
                                      key.owner.ObjectOwner? && key.owner.id.Param?;
            && (stale ==> AllowsEveryWord(read) && forall a :: !Below(Finite({}, {a}), read))
            && (!stale && !Possible(state, key) ==> forall x :: Below(read, x))
            && (!stale && Possible(state, key) && key in baseline ==> read == baseline[key])
            && (!stale && Possible(state, key) && key !in baseline ==> AllowsEveryWord(read))
            && (!stale && Possible(state, key) && key !in baseline && param ==> forall x :: Below(x, read))
            && (!stale && Possible(state, key) && key !in baseline && !param ==> forall a :: !Below(Finite({}, {a}), read))
  {
    forall a: Atom ensures !Below(Finite({}, {a}), UnknownScalar) { assert a in {a}; }
  }

  // ----- the baseline index

  predicate ReadOnlyKey(key: MemoryKey, objects: seq<ObjectRow>) {
    key.owner.ObjectOwner? && exists i | 0 <= i < |objects| :: objects[i].id == key.owner.id && !objects[i].writable
  }

  predicate Indexed(catalog: Catalog, key: MemoryKey, limit: nat) {
    && key in catalog.baseline
    && !ReadOnlyKey(key, catalog.objects)
    && Join(catalog.baseline[key], UnknownScalar, limit) != UnknownScalar
  }

  /** baseline_memory_index: the keys an invalidation can be noticed at, grouped by owner. */
  method BaselineMemoryIndex(catalog: Catalog, limit: nat) returns (index: map<Owner, set<MemoryKey>>)
    ensures forall owner | owner in index :: forall key | key in index[owner] :: key.owner == owner
    ensures forall key :: Indexed(catalog, key, limit) <==> key.owner in index && key in index[key.owner]
  {
    index := map[];
    var todo := catalog.baseline.Keys;
    while todo != {}
      invariant todo <= catalog.baseline.Keys
      invariant forall owner | owner in index :: forall key | key in index[owner] :: key.owner == owner
      invariant forall key :: Indexed(catalog, key, limit) && key !in todo
                         <==> key.owner in index && key in index[key.owner]
    {
      var key :| key in todo;
      todo := todo - {key};
      if !ReadOnlyKey(key, catalog.objects)
         && Join(catalog.baseline[key], UnknownScalar, limit) != UnknownScalar {
        var group := if key.owner in index then index[key.owner] else {};
        index := index[key.owner := group + {key}];
      }
    }
  }

  // ----- normalising away redundant cells

  predicate Redundant(state: MemoryState, key: MemoryKey, baseline: map<MemoryKey, Value>)
    requires key in state.cells
  {
    key !in state.written && state.cells[key] == ImplicitValue(state, key, baseline)
  }

  function WithoutRedundant(state: MemoryState, baseline: map<MemoryKey, Value>): MemoryState {
    state.(cells := map key | key in state.cells && !Redundant(state, key, baseline) :: state.cells[key])
  }

  /** Dropping redundant cells is invisible to every read. */
  lemma NormalizingIsInvisible(state: MemoryState, key: MemoryKey, baseline: map<MemoryKey, Value>)
    ensures MemoryValue(WithoutRedundant(state, baseline), key, baseline) == MemoryValue(state, key, baseline)
    ensures WithoutRedundant(WithoutRedundant(state, baseline), baseline) == WithoutRedundant(state, baseline)
    ensures key in state.cells && key in state.written ==> key in WithoutRedundant(state, baseline).cells
    ensures key in WithoutRedundant(state, baseline).cells && key !in state.written ==>
              MemoryValue(state.(cells := state.cells - {key}), key, baseline) != state.cells[key]
  {
    var once := WithoutRedundant(state, baseline);
    assert forall k | k in once.cells :: Redundant(once, k, baseline) <==> Redundant(state, k, baseline);
    assert WithoutRedundant(once, baseline).cells == once.cells;
  }

  // ----- the sparse join

  predicate OwnerInvalidated(state: MemoryState, owner: Owner) {
    exists row | row in state.invalidated :: row.owner == owner
  }

  /** Whether the join looks for baseline keys of this owner. */
  predicate OwnerAffected(l: MemoryState, r: MemoryState, owner: Owner) {
    && !(l.invalidated == r.invalidated && l.allInvalidated == r.allInvalidated)
    && (l.allInvalidated != r.allInvalidated || OwnerInvalidated(l, owner) || OwnerInvalidated(r, owner))
  }

  function VisitedBaseline(l: MemoryState, r: MemoryState, catalog: Catalog, limit: nat): set<MemoryKey> {
    set key | key in catalog.baseline && Indexed(catalog, key, limit) && OwnerAffected(l, r, key.owner)
              && key !in l.cells
              && MemoryValue(l, key, catalog.baseline) != MemoryValue(r, key, catalog.baseline)
  }

  function Visited(l: MemoryState, r: MemoryState, catalog: Catalog, limit: nat): set<MemoryKey> {
    VisitedBaseline(l, r, catalog, limit) + (if l.cells == r.cells then {} else l.cells.Keys + r.cells.Keys)
  }

  ghost function JoinedRanges(l: set<MemoryRange>, r: set<MemoryRange>): set<MemoryRange> {
    if l == r then l else Normalized(l + r)
  }

  /** The joined state before redundant cells are dropped. */
  ghost function RawJoin(l: MemoryState, r: MemoryState, catalog: Catalog, limit: nat): MemoryState {
    var visited := Visited(l, r, catalog, limit);
    MemoryState(
      (if l.cells == r.cells then l.cells else map[])
        + map key | key in visited :: DenseJoin(l, r, key, catalog.baseline, limit),
      JoinedRanges(l.invalidated, r.invalidated),
      l.allInvalidated || r.allInvalidated,
      JoinedRanges(l.effectInvalidated, r.effectInvalidated),
      l.effectAllInvalidated || r.effectAllInvalidated,
      l.allocations + r.allocations,
      l.written + r.written)
  }

  ghost function SparseJoin(l: MemoryState, r: MemoryState, catalog: Catalog, limit: nat): MemoryState {
    var raw := RawJoin(l, r, catalog, limit);
    if l.cells == r.cells && Visited(l, r, catalog, limit) == {} then raw
    else WithoutRedundant(raw, catalog.baseline)
  }

  // ----- the sparse join agrees with the dense one, and exactly where it does not

  /** Keys with a default the index leaves out: read-only baseline cells and call-parameter cells. */
  predicate Unindexed(catalog: Catalog, key: MemoryKey) {
    if key in catalog.baseline then ReadOnlyKey(key, catalog.objects)
    else key.owner.ObjectOwner? && key.owner.id.Param?
  }

  /** An implicit, unindexed key that one side invalidated and whose default on the other side an
      unknown scalar does not cover. */
  predicate Missed(l: MemoryState, r: MemoryState, catalog: Catalog, key: MemoryKey, limit: nat) {
    && Unindexed(catalog, key)
    && key !in l.cells && key !in r.cells
    && InvalidatedAt(l, key) != InvalidatedAt(r, key)
    && var kept := if InvalidatedAt(l, key) then r else l;
       Join(ImplicitValue(kept, key, catalog.baseline), UnknownScalar, limit) != UnknownScalar
  }

  ghost predicate ValidState(state: MemoryState) {
    Ordered(state.invalidated) && Ordered(state.effectInvalidated)
  }

  lemma JoinedRangesHit(l: set<MemoryRange>, r: set<MemoryRange>, key: MemoryKey)
    requires Ordered(l) && Ordered(r) && key.width >= 1
    ensures Hit(JoinedRanges(l, r), key) <==> Hit(l, key) || Hit(r, key)
  {
    assert Hit(l + r, key) <==> Hit(l, key) || Hit(r, key);
    if l != r { NormalizedHitsExactly(l + r, key); }
  }

  lemma RawJoinVisited(l: MemoryState, r: MemoryState, catalog: Catalog, key: MemoryKey, limit: nat)
    requires key in l.cells || key in r.cells || key in Visited(l, r, catalog, limit)
    ensures MemoryValue(RawJoin(l, r, catalog, limit), key, catalog.baseline)
         == DenseJoin(l, r, key, catalog.baseline, limit)
  {
  }

  /** A key nobody visits: the defaults of the joined state do the work. */
  lemma RawJoinUnvisited(l: MemoryState, r: MemoryState, catalog: Catalog, key: MemoryKey, limit: nat)
    requires ValidState(l) && ValidState(r) && key.width >= 1
    requires key !in l.cells && key !in r.cells && key !in Visited(l, r, catalog, limit)
    ensures (MemoryValue(RawJoin(l, r, catalog, limit), key, catalog.baseline)
             == DenseJoin(l, r, key, catalog.baseline, limit))
        <==> !Missed(l, r, catalog, key, limit)
  {
    var raw := RawJoin(l, r, catalog, limit);
    assert key !in raw.cells;
    JoinedRangesHit(l.invalidated, r.invalidated, key);
    assert InvalidatedAt(raw, key) <==> InvalidatedAt(l, key) || InvalidatedAt(r, key);
    var lv, rv := ImplicitValue(l, key, catalog.baseline), ImplicitValue(r, key, catalog.baseline);
    if InvalidatedAt(l, key) != InvalidatedAt(r, key) {
      OneSided(l, r, catalog, key, limit);
    } else if !InvalidatedAt(l, key) {
      assert ImplicitValue(raw, key, catalog.baseline) == if lv.Bottom? then rv else lv;
    }
  }

  lemma OneSided(l: MemoryState, r: MemoryState, catalog: Catalog, key: MemoryKey, limit: nat)
    requires key !in l.cells && key !in r.cells && key !in Visited(l, r, catalog, limit)
    requires InvalidatedAt(l, key) != InvalidatedAt(r, key)
    ensures DenseJoin(l, r, key, catalog.baseline, limit) == UnknownScalar <==> !Missed(l, r, catalog, key, limit)
  {
    var kept := if InvalidatedAt(l, key) then r else l;
    var value := ImplicitValue(kept, key, catalog.baseline);
    JoinCommutes(value, UnknownScalar, limit);
    assert DenseJoin(l, r, key, catalog.baseline, limit) == Join(value, UnknownScalar, limit);
    if Indexed(catalog, key, limit) {
      assert OwnerAffected(l, r, key.owner) by {
        if l.allInvalidated == r.allInvalidated {
          var gone := if InvalidatedAt(l, key) then l else r;
          var row :| row in gone.invalidated && Overlaps(row, key);
          assert OwnerInvalidated(gone, key.owner);
        }
      }
      assert value == UnknownScalar;
    }
  }

  /** Reading the sparse join is reading the dense join, at every key but the missed ones. */
  lemma SparseJoinExactly(l: MemoryState, r: MemoryState, catalog: Catalog, key: MemoryKey, limit: nat)
    requires ValidState(l) && ValidState(r) && key.width >= 1
    ensures (MemoryValue(SparseJoin(l, r, catalog, limit), key, catalog.baseline)
             == DenseJoin(l, r, key, catalog.baseline, limit))
        <==> !Missed(l, r, catalog, key, limit)
  {
    var raw := RawJoin(l, r, catalog, limit);
    NormalizingIsInvisible(raw, key, catalog.baseline);
    assert MemoryValue(SparseJoin(l, r, catalog, limit), key, catalog.baseline) == MemoryValue(raw, key, catalog.baseline);
    if key in l.cells || key in r.cells || key in Visited(l, r, catalog, limit) {
      RawJoinVisited(l, r, catalog, key, limit);
    } else {
      RawJoinUnvisited(l, r, catalog, key, limit);
    }
  }

  /** Nothing is known of the key on this side. */
  predicate UnknownAt(state: MemoryState, key: MemoryKey, baseline: map<MemoryKey, Value>) {
    key !in state.cells && (InvalidatedAt(state, key) || (key !in baseline && Possible(state, key)))
  }

  lemma MissedReadsUnknown(l: MemoryState, r: MemoryState, catalog: Catalog, key: MemoryKey, limit: nat)
    requires ValidState(l) && ValidState(r) && key.width >= 1 && Missed(l, r, catalog, key, limit)
    ensures MemoryValue(SparseJoin(l, r, catalog, limit), key, catalog.baseline) == UnknownScalar
  {
    var raw := RawJoin(l, r, catalog, limit);
    NormalizingIsInvisible(raw, key, catalog.baseline);
    JoinedRangesHit(l.invalidated, r.invalidated, key);
    assert !Indexed(catalog, key, limit);
    assert key !in raw.cells;
  }

  lemma UnknownJoins(x: Value, y: Value, limit: nat)
    requires AllowsEveryWord(x) && (x.UnknownScalar? || x.Conflict?)
    ensures AllowsEveryWord(SlotJoin(x, y, limit)) && AllowsEveryWord(SlotJoin(y, x, limit))
  {
  }

  /** Where one side knows nothing the join knows nothing, whatever the other side has written. */
  lemma UnknownStaysUnknown(l: MemoryState, r: MemoryState, catalog: Catalog, key: MemoryKey, limit: nat)
    requires ValidState(l) && ValidState(r) && key.width >= 1
    requires UnknownAt(l, key, catalog.baseline) || UnknownAt(r, key, catalog.baseline)
    ensures AllowsEveryWord(MemoryValue(SparseJoin(l, r, catalog, limit), key, catalog.baseline))
  {
    if Missed(l, r, catalog, key, limit) {
      MissedReadsUnknown(l, r, catalog, key, limit);
    } else {
      SparseJoinExactly(l, r, catalog, key, limit);
      var x, y := MemoryValue(l, key, catalog.baseline), MemoryValue(r, key, catalog.baseline);
      if UnknownAt(l, key, catalog.baseline) {
        UnwrittenReads(l, key, catalog.baseline);
        UnknownJoins(x, y, limit);
      } else {
        UnwrittenReads(r, key, catalog.baseline);
        UnknownJoins(y, x, limit);
      }
    }
  }

  /** What the joined state remembers besides its values: whatever either side had invalidated, allocated or written, and
      an explicit cell for every cell that was written. */
  lemma JoinRemembers(l: MemoryState, r: MemoryState, catalog: Catalog, limit: nat)
    requires ValidState(l) && ValidState(r)
    ensures var joined := SparseJoin(l, r, catalog, limit);
            && (forall key: MemoryKey | key.width >= 1 :: InvalidatedAt(joined, key) <==> InvalidatedAt(l, key) || InvalidatedAt(r, key))
            && (forall key: MemoryKey | key.width >= 1 ::
                  Hit(joined.effectInvalidated, key) <==> Hit(l.effectInvalidated, key) || Hit(r.effectInvalidated, key))
            && (joined.effectAllInvalidated <==> l.effectAllInvalidated || r.effectAllInvalidated)
            && (forall id :: id in joined.allocations <==> id in l.allocations || id in r.allocations)
            && (forall key :: key in joined.written <==> key in l.written || key in r.written)
            && (forall key | key in joined.written && (key in l.cells || key in r.cells) :: key in joined.cells)
  {
    forall key: MemoryKey | key.width >= 1 ensures JoinedHits(l, r, key) {
      JoinedRangesHit(l.invalidated, r.invalidated, key);
      JoinedRangesHit(l.effectInvalidated, r.effectInvalidated, key);
    }
  }

  ghost predicate JoinedHits(l: MemoryState, r: MemoryState, key: MemoryKey) {
    && (Hit(JoinedRanges(l.invalidated, r.invalidated), key) <==> Hit(l.invalidated, key) || Hit(r.invalidated, key))
    && (Hit(JoinedRanges(l.effectInvalidated, r.effectInvalidated), key)
        <==> Hit(l.effectInvalidated, key) || Hit(r.effectInvalidated, key))
  }

  /** The missed case is real: invalidating a parameter object on one side only. */
  lemma MissedKeyExists(context: Context)
    ensures var key := MemoryKey(ObjectOwner(Param(context, StackCoordinate(4, 4))), 0, 4);
            var clean := MemoryState(map[], {}, false, {}, false, {}, {});
            var stale := clean.(invalidated := {MemoryRange(key.owner, 0, 4)});
            && DenseJoin(clean, stale, key, map[], 16) == Conflict
            && MemoryValue(SparseJoin(clean, stale, Catalog(map[], []), 16), key, map[]) == UnknownScalar
  {
    var key := MemoryKey(ObjectOwner(Param(context, StackCoordinate(4, 4))), 0, 4);
    var clean := MemoryState(map[], {}, false, {}, false, {}, {});
    var row := MemoryRange(key.owner, 0, 4);
    var stale := clean.(invalidated := {row});
    assert Overlaps(row, key) && Hit(stale.invalidated, key);
    JoinedRangesHit(clean.invalidated, stale.invalidated, key);
    assert key !in SparseJoin(clean, stale, Catalog(map[], []), 16).cells;
  }

  /** The read-only half: a constant pointer of a read-only object, invalidated on one side only. */
  lemma MissedReadOnlyKeyExists()
    ensures var id := Plain("table");
            var key := MemoryKey(ObjectOwner(id), 0, 4);
            var catalog := Catalog(map[key := Finite({}, {Object(id, 8)})], [ObjectRow(id, false)]);
            var clean := MemoryState(map[], {}, false, {}, false, {}, {});
            var stale := clean.(invalidated := {MemoryRange(key.owner, 0, 4)});
            && DenseJoin(clean, stale, key, catalog.baseline, 16) == Conflict
            && MemoryValue(SparseJoin(clean, stale, catalog, 16), key, catalog.baseline) == UnknownScalar
  {
    var id := Plain("table");
    var key := MemoryKey(ObjectOwner(id), 0, 4);
    var catalog := Catalog(map[key := Finite({}, {Object(id, 8)})], [ObjectRow(id, false)]);
    var clean := MemoryState(map[], {}, false, {}, false, {}, {});
    var row := MemoryRange(key.owner, 0, 4);
    var stale := clean.(invalidated := {row});
    assert catalog.objects[0].id == id && ReadOnlyKey(key, catalog.objects);
    assert Overlaps(row, key) && Hit(stale.invalidated, key);
    assert DenseJoin(clean, stale, key, catalog.baseline, 16) == Conflict;
    JoinedRangesHit(clean.invalidated, stale.invalidated, key);
    forall k ensures k !in Visited(clean, stale, catalog, 16) { }
  }

  /** The join covers both of its sides at every key it does not miss. */
  lemma SparseJoinCovers(l: MemoryState, r: MemoryState, catalog: Catalog, key: MemoryKey, limit: nat)
    requires ValidState(l) && ValidState(r) && key.width >= 1
    requires WellFormed(MemoryValue(l, key, catalog.baseline)) && WellFormed(MemoryValue(r, key, catalog.baseline))
    requires !Missed(l, r, catalog, key, limit)
    ensures var joined := MemoryValue(SparseJoin(l, r, catalog, limit), key, catalog.baseline);
            && Covers(joined, MemoryValue(l, key, catalog.baseline), limit)
            && Covers(joined, MemoryValue(r, key, catalog.baseline), limit)
  {
    SparseJoinExactly(l, r, catalog, key, limit);
    SlotJoinCovers(MemoryValue(l, key, catalog.baseline), MemoryValue(r, key, catalog.baseline), limit);
  }

  /** Joining a state with itself gives it back unchanged, redundant cells included. */
  lemma SparseJoinIdempotent(state: MemoryState, catalog: Catalog, limit: nat)
    ensures SparseJoin(state, state, catalog, limit) == state
  {
    assert Visited(state, state, catalog, limit) == {};
    assert RawJoin(state, state, catalog, limit).cells == state.cells;
  }

  // ----- the state as the kernel updates it

  class Memory {
    var cells: map<MemoryKey, Value>
    var invalidated: set<MemoryRange>
    var allInvalidated: bool
    var effectInvalidated: set<MemoryRange>
    var effectAllInvalidated: bool
    var allocations: set<Identity>
    var written: set<MemoryKey>

    constructor (state: MemoryState)
      ensures State() == state
    {
      cells, invalidated, allInvalidated := state.cells, state.invalidated, state.allInvalidated;
      effectInvalidated, effectAllInvalidated := state.effectInvalidated, state.effectAllInvalidated;
      allocations, written := state.allocations, state.written;
    }

    function State(): MemoryState
      reads this
    {
      MemoryState(cells, invalidated, allInvalidated, effectInvalidated, effectAllInvalidated, allocations, written)
    }

    /** normalize_memory: collects the redundant keys, then removes them one by one. */
    method Normalize(baseline: map<MemoryKey, Value>)
      modifies this`cells
      ensures State() == WithoutRedundant(old(State()), baseline)
    {
      if |cells| == 0 {
        assert cells == map[];
        assert WithoutRedundant(State(), baseline).cells == map[];
        return;
      }
      var redundant := set key | key in cells && Redundant(State(), key, baseline);
      ghost var all := redundant;
      while redundant != {}
        invariant redundant <= all
        invariant cells == map key | key in old(cells) && key !in all - redundant :: old(cells)[key]
      {
        var key :| key in redundant;
        redundant := redundant - {key};
        cells := cells - {key};
      }
    }

    /** invalidate_ranges: records the ranges and forgets every explicit cell they overlap.  Afterwards the
        overlapped keys read as unknown and every other key reads as before. */
    method InvalidateRanges(ranges: set<MemoryRange>, ghost baseline: map<MemoryKey, Value>)
      modifies this`cells, this`invalidated, this`effectInvalidated
      ensures invalidated == old(invalidated) + ranges
      ensures effectInvalidated == old(effectInvalidated) + ranges
      ensures cells == map key | key in old(cells) && !Hit(ranges, key) :: old(cells)[key]
      ensures forall key :: MemoryValue(State(), key, baseline)
                         == if Hit(ranges, key) then UnknownScalar else MemoryValue(old(State()), key, baseline)
    {
      invalidated := invalidated + ranges;
      effectInvalidated := effectInvalidated + ranges;
      var removed := set key | key in cells && Hit(ranges, key);
      ghost var all := removed;
      while removed != {}
        invariant removed <= all
        invariant invalidated == old(invalidated) + ranges && effectInvalidated == old(effectInvalidated) + ranges
        invariant cells == map key | key in old(cells) && key !in all - removed :: old(cells)[key]
      {
        var key :| key in removed;
        removed := removed - {key};
        cells := cells - {key};
      }
      forall key ensures Hit(invalidated, key) <==> Hit(old(invalidated), key) || Hit(ranges, key) { }
    }

    /** invalidate_all_memory */
    method InvalidateAll(ghost baseline: map<MemoryKey, Value>)
      modifies this
      ensures cells == map[] && invalidated == {} && effectInvalidated == {} && written == {}
      ensures allInvalidated && effectAllInvalidated && allocations == old(allocations)
      ensures forall key :: MemoryValue(State(), key, baseline) == UnknownScalar
    {
      allInvalidated, effectAllInvalidated := true, true;
      invalidated, effectInvalidated, written, cells := {}, {}, {}, map[];
    }
  }

  method JoinRangeSets(l: set<MemoryRange>, r: set<MemoryRange>) returns (joined: Option<set<MemoryRange>>)
    ensures joined.Some? <==> l == r || Ordered(l + r)
    ensures joined.Some? ==> joined.value == JoinedRanges(l, r)
  {
    if l == r {
      joined := Some(l);
    } else {
      joined := NormalizeRanges(l + r);
    }
  }

  /** The index scan of join_state. */
  method AffectedBaselineKeys(l: MemoryState, r: MemoryState, catalog: Catalog, limit: nat,
                              index: map<Owner, set<MemoryKey>>)
    returns (keys: set<MemoryKey>)
    requires forall owner | owner in index :: forall key | key in index[owner] :: key.owner == owner
    requires forall key :: Indexed(catalog, key, limit) <==> key.owner in index && key in index[key.owner]
    ensures keys == VisitedBaseline(l, r, catalog, limit)
  {
    keys := {};
    if l.invalidated == r.invalidated && l.allInvalidated == r.allInvalidated {
      return;
    }
    var affected := if l.allInvalidated != r.allInvalidated then index.Keys
                    else set row | row in l.invalidated + r.invalidated :: row.owner;
    ghost var scanned: set<Owner> := {};
    while affected != {}
      invariant keys == set key | key in VisitedBaseline(l, r, catalog, limit) && key.owner in scanned
      invariant forall owner :: OwnerAffected(l, r, owner) && owner in index ==> owner in affected || owner in scanned
      invariant forall owner | owner in affected && owner in index :: OwnerAffected(l, r, owner)
    {
      var owner :| owner in affected;
      affected := affected - {owner};
      if owner in index {
        var found := set key | key in index[owner] && key !in l.cells
                             && MemoryValue(l, key, catalog.baseline) != MemoryValue(r, key, catalog.baseline);
        keys := keys + found;
      }
      scanned := scanned + {owner};
    }
  }

  /** Joins the two reads at each visited key. */
  method JoinCells(l: MemoryState, r: MemoryState, catalog: Catalog, limit: nat, keys: set<MemoryKey>,
                   start: map<MemoryKey, Value>)
    returns (cells: map<MemoryKey, Value>)
    ensures cells == start + map key | key in keys :: DenseJoin(l, r, key, catalog.baseline, limit)
  {
    cells := start;
    var todo := keys;
    while todo != {}
      invariant todo <= keys && cells.Keys == start.Keys + (keys - todo)
      invariant forall key | key in keys - todo :: cells[key] == DenseJoin(l, r, key, catalog.baseline, limit)
      invariant forall key | key in start.Keys - (keys - todo) :: cells[key] == start[key]
    {
      var key :| key in todo;
      todo := todo - {key};
      var left, right := MemoryValue(l, key, catalog.baseline), MemoryValue(r, key, catalog.baseline);
      cells := cells[key := if left == right then left else Join(left, right, limit)];
    }
  }

  /** The memory part of join_state; an inverted range among the joined ones is an error. */
  method JoinState(l: MemoryState, r: MemoryState, catalog: Catalog, limit: nat, index: map<Owner, set<MemoryKey>>)
    returns (result: Option<MemoryState>)
    requires forall owner | owner in index :: forall key | key in index[owner] :: key.owner == owner
    requires forall key :: Indexed(catalog, key, limit) <==> key.owner in index && key in index[key.owner]
    ensures result.Some? <==> && (l.invalidated == r.invalidated || Ordered(l.invalidated + r.invalidated))
                              && (l.effectInvalidated == r.effectInvalidated
                                  || Ordered(l.effectInvalidated + r.effectInvalidated))
    ensures result.Some? ==> result.value == SparseJoin(l, r, catalog, limit)
  {
    if l == r {
      SparseJoinIdempotent(l, catalog, limit);
      return Some(l);
    }
    var baselineKeys := AffectedBaselineKeys(l, r, catalog, limit, index);
    var sameCells := l.cells == r.cells;
    var keys := if sameCells then baselineKeys else l.cells.Keys + r.cells.Keys + baselineKeys;
    assert keys == Visited(l, r, catalog, limit);
    var cells := JoinCells(l, r, catalog, limit, keys, if sameCells then l.cells else map[]);
    var invalidated := JoinRangeSets(l.invalidated, r.invalidated);
    var effects := JoinRangeSets(l.effectInvalidated, r.effectInvalidated);
    if invalidated.None? || effects.None? { return None; }
    var joined := new Memory(MemoryState(
      cells, invalidated.value, l.allInvalidated || r.allInvalidated,
      effects.value, l.effectAllInvalidated || r.effectAllInvalidated,
      l.allocations + r.allocations, l.written + r.written));
    assert joined.State() == RawJoin(l, r, catalog, limit);
    if !(sameCells && keys == {}) {
      joined.Normalize(catalog.baseline);
    }
    return Some(joined.State());
  }
}
