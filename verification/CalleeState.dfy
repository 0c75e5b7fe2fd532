/** The memory a callee starts with: which of the caller's frames and parameter objects stay alive, and how
    invalidated caller bytes appear at the callee's frame offsets. */
module CalleeState {
  import opened Identities
  import opened Values
  import opened Ranges
  import opened CallProjection

  datatype Caller = Caller(
    cells: map<MemoryKey, Value>,
    callbacks: map<string, Value>,
    relational: Bindings,
    invalidated: set<MemoryRange>)

  /** What the call contributes: argument registers, projected stack words, the parameter bindings made for
      them, and the stack pointer's alternatives. */
  datatype Call = Call(
    context: Context,
    registers: seq<Value>,
    projected: map<MemoryKey, Value>,
    bindings: Bindings,
    stackAtoms: seq<Atom>)

  datatype Callee = Callee(
    memory: map<MemoryKey, Value>,
    relational: Bindings,
    invalidated: set<MemoryRange>)

  predicate ValidCall(call: Call) {
    && |call.registers| == REGISTER_COUNT
    && (forall key | key in call.projected :: key.owner == ObjectOwner(Frame(call.context)))
    && BindingsOf(call.bindings, call.context)
    && (forall a | a in call.stackAtoms :: IsStackAtom(a))
  }

  // ----- owners

  function OwnerOf(owner: Owner): Option<Identity> {
    if owner.ObjectOwner? then TransientOwner(owner.id) else None
  }

  /** The frames and parameter objects a value names. */
  function NamedOwners(v: Value): set<Identity> {
    if v.Finite? then set a | a in v.refs && !a.Other? && TransientOwner(a.id).Some? :: TransientOwner(a.id).value
    else {}
  }

  predicate InFrame(owner: Owner, context: Context) {
    owner.ObjectOwner? && CapturedStackOwner(owner.id) == Some(Frame(context))
  }

  predicate FrameReused(caller: Caller, context: Context) {
    exists key | key in caller.cells :: InFrame(key.owner, context)
  }

  function CallerMemory(caller: Caller, context: Context): map<MemoryKey, Value> {
    map key | key in caller.cells && !InFrame(key.owner, context) :: caller.cells[key]
  }

  /** Where the callee's frame lies in the caller's terms: four bytes below each stack alternative. */
  function FrameBinding(stackAtoms: seq<Atom>): Value {
    Canonical({}, set a | a in stackAtoms :: Object(a.id, AtomOffset(a) - 4), STACK_ALTERNATIVE_LIMIT)
  }

  function AtomOffset(a: Atom): int { if a.View? then 0 else a.offset }

  // ----- the liveness trace

  predicate IsRootValue(caller: Caller, call: Call, v: Value)
    requires ValidCall(call)
  {
    || (exists i | 0 <= i < ESP :: call.registers[i] == v)
    || v in call.projected.Values
    || v in call.bindings.Values
    || v == FrameBinding(call.stackAtoms)
    || v in caller.callbacks.Values
    || exists key | key in CallerMemory(caller, call.context) ::
         OwnerOf(key.owner).None? && caller.cells[key] == v
  }

  function RootValues(caller: Caller, call: Call): (values: set<Value>)
    requires ValidCall(call)
    ensures forall v :: v in values <==> IsRootValue(caller, call, v)
  {
    (set i | 0 <= i < ESP :: call.registers[i])
      + call.projected.Values + call.bindings.Values + {FrameBinding(call.stackAtoms)} + caller.callbacks.Values
      + set key | key in CallerMemory(caller, call.context) && OwnerOf(key.owner).None? :: caller.cells[key]
  }

  function RootOwners(caller: Caller, call: Call): set<Identity>
    requires ValidCall(call)
  {
    set v, o | v in RootValues(caller, call) && o in NamedOwners(v) :: o
  }

  /** What a live owner makes live: owners named in its cells and in its binding. */
  ghost predicate Closed(live: set<Identity>, cells: map<MemoryKey, Value>, relational: Bindings) {
    && (forall key | key in cells && OwnerOf(key.owner).Some? && OwnerOf(key.owner).value in live ::
          NamedOwners(cells[key]) <= live)
    && (forall id | id in relational && id in live :: NamedOwners(relational[id]) <= live)
  }

  ghost predicate LeastClosed(live: set<Identity>, roots: set<Identity>, cells: map<MemoryKey, Value>, relational: Bindings) {
    && roots <= live && Closed(live, cells, relational)
    && forall other: set<Identity> :: roots <= other && Closed(other, cells, relational) ==> live <= other
  }

  ghost predicate BelowEveryClosed(live: set<Identity>, roots: set<Identity>, cells: map<MemoryKey, Value>, relational: Bindings) {
    forall other: set<Identity> :: roots <= other && Closed(other, cells, relational) ==> live <= other
  }

  function AllOwners(values: set<Value>): set<Identity> { set v, o | v in values && o in NamedOwners(v) :: o }

  /** One pass over the caller's cells, extending the live set as it goes. */
  method TraceCells(start: set<Identity>, cells: map<MemoryKey, Value>, ghost roots: set<Identity>, ghost relational: Bindings)
    returns (live: set<Identity>)
    requires BelowEveryClosed(start, roots, cells, relational)
    ensures start <= live && live <= start + AllOwners(cells.Values)
    ensures BelowEveryClosed(live, roots, cells, relational)
    ensures forall key | key in cells && OwnerOf(key.owner).Some? && OwnerOf(key.owner).value in start ::
              NamedOwners(cells[key]) <= live
  {
    live := start;
    var todo := cells.Keys;
    while todo != {}
      invariant todo <= cells.Keys && start <= live && live <= start + AllOwners(cells.Values)
      invariant BelowEveryClosed(live, roots, cells, relational)
      invariant forall key | key in cells && key !in todo && OwnerOf(key.owner).Some? && OwnerOf(key.owner).value in start ::
                  NamedOwners(cells[key]) <= live
    {
      var key :| key in todo;
      todo := todo - {key};
      assert cells[key] in cells.Values;
      if OwnerOf(key.owner).Some? && OwnerOf(key.owner).value in live {
        live := live + NamedOwners(cells[key]);
      }
    }
  }

  /** One pass over the caller's relational bindings. */
  method TraceBindings(start: set<Identity>, relational: Bindings, ghost roots: set<Identity>, ghost cells: map<MemoryKey, Value>)
    returns (live: set<Identity>)
    requires BelowEveryClosed(start, roots, cells, relational)
    ensures start <= live && live <= start + AllOwners(relational.Values)
    ensures BelowEveryClosed(live, roots, cells, relational)
    ensures forall id | id in relational && id in start :: NamedOwners(relational[id]) <= live
  {
    live := start;
    var todo := relational.Keys;
    while todo != {}
      invariant todo <= relational.Keys && start <= live && live <= start + AllOwners(relational.Values)
      invariant BelowEveryClosed(live, roots, cells, relational)
      invariant forall id | id in relational && id !in todo && id in start :: NamedOwners(relational[id]) <= live
    {
      var id :| id in todo;
      todo := todo - {id};
      assert relational[id] in relational.Values;
      if id in live {
        live := live + NamedOwners(relational[id]);
      }
    }
  }

  lemma SameSize(small: set<Identity>, large: set<Identity>)
    requires small <= large && |small| == |large|
    ensures small == large
  {
    assert large == small + (large - small);
  }

  /** The trace loop computes the least closed set of owners. */
  method TraceLive(roots: set<Identity>, cells: map<MemoryKey, Value>, relational: Bindings) returns (live: set<Identity>)
    ensures LeastClosed(live, roots, cells, relational)
  {
    live := roots;
    ghost var universe := roots + AllOwners(cells.Values) + AllOwners(relational.Values);
    while true
      invariant roots <= live && live <= universe
      invariant BelowEveryClosed(live, roots, cells, relational)
      decreases |universe - live|
    {
      var previous := live;
      var traced := TraceCells(live, cells, roots, relational);
      live := TraceBindings(traced, relational, roots, cells);
      if |live| == |previous| {
        SameSize(previous, live);
        return;
      }
      ShrinkingRest(universe, previous, live);
    }
  }

  lemma ShrinkingRest(universe: set<Identity>, before: set<Identity>, after: set<Identity>)
    requires before <= after <= universe && |before| != |after|
    ensures |universe - after| < |universe - before|
  {
    var added := after - before;
    assert universe - before == (universe - after) + added;
    assert added == {} ==> after == before;
  }

  // ----- the projected state

  /** Invalidated bytes of a bound object, seen at the parameter object's offsets. */
  function ParameterRows(caller: Caller, bindings: Bindings): set<MemoryRange> {
    set token, a, row | token in bindings && bindings[token].Finite? && a in bindings[token].refs
                        && row in caller.invalidated && row.owner == ObjectOwner(a.id)
      :: MemoryRange(ObjectOwner(token), row.start - AtomOffset(a), row.end - AtomOffset(a))
  }

  /** Invalidated bytes above the caller's stack pointer, seen at the callee's frame offsets. */
  function StackRow(row: MemoryRange, a: Atom, context: Context): MemoryRange {
    MemoryRange(ObjectOwner(Frame(context)),
                (if row.start > AtomOffset(a) then row.start else AtomOffset(a)) - AtomOffset(a) + 4,
                row.end - AtomOffset(a) + 4)
  }

  function StackRows(caller: Caller, stackAtoms: seq<Atom>, context: Context): set<MemoryRange> {
    set row, a | row in caller.invalidated && a in stackAtoms
                 && row.owner == ObjectOwner(a.id) && row.end > AtomOffset(a)
      :: StackRow(row, a, context)
  }

  predicate Kept(owner: Owner, live: set<Identity>) {
    OwnerOf(owner).Some? ==> OwnerOf(owner).value in live
  }

  function ProjectedRows(caller: Caller, call: Call, live: set<Identity>): set<MemoryRange> {
    (set row | row in caller.invalidated && Kept(row.owner, live))
      + ParameterRows(caller, call.bindings) + StackRows(caller, call.stackAtoms, call.context)
  }

  function ProjectedMemory(caller: Caller, call: Call, live: set<Identity>): map<MemoryKey, Value> {
    (map key | key in caller.cells && !InFrame(key.owner, call.context) && Kept(key.owner, live) :: caller.cells[key])
      + call.projected
  }

  function ProjectedBindings(caller: Caller, call: Call, live: set<Identity>): Bindings {
    (map id | id in caller.relational && id in live :: caller.relational[id])
      + call.bindings + map[Frame(call.context) := FrameBinding(call.stackAtoms)]
  }

  // ----- what the projected state holds, owner by owner

  /** The callee's frame and its parameters, to which the call adds invalidated bytes of its own. */
  predicate Supplied(call: Call, owner: Owner) {
    owner.ObjectOwner? && (owner.id == Frame(call.context) || owner.id in call.bindings)
  }

  predicate Survives(owner: Owner, live: set<Identity>) { OwnerOf(owner).None? || OwnerOf(owner).value in live }

  /** Ordinary memory and the memory of live owners is the caller's, cell by cell; of other frames and parameters nothing
      is left; and the callee's own frame holds the projected words and nothing else. */
  ghost predicate HoldsCallerMemory(caller: Caller, call: Call, live: set<Identity>, callee: Callee) {
    && (forall key: MemoryKey | !InFrame(key.owner, call.context) ::
          key in callee.memory <==> key in caller.cells && Survives(key.owner, live))
    && (forall key: MemoryKey | !InFrame(key.owner, call.context) && key in callee.memory ::
          callee.memory[key] == caller.cells[key])
    && (forall key: MemoryKey | InFrame(key.owner, call.context) :: key in callee.memory <==> key in call.projected)
    && (forall key | key in call.projected :: key in callee.memory && callee.memory[key] == call.projected[key])
  }

  /** The bindings are those of the call, and for other live owners the caller's. */
  ghost predicate HoldsBindings(caller: Caller, call: Call, live: set<Identity>, callee: Callee) {
    && (forall id | Rebound(call, id) :: id in callee.relational && callee.relational[id] == NewBinding(call, id))
    && (forall id | !Rebound(call, id) :: id in callee.relational <==> id in live && id in caller.relational)
    && (forall id | !Rebound(call, id) && id in callee.relational :: callee.relational[id] == caller.relational[id])
  }

  ghost predicate HoldsCallerInvalidations(caller: Caller, call: Call, live: set<Identity>, callee: Callee) {
    forall key: MemoryKey | key.width >= 1 ::
      && OrdinaryByte(caller, call, live, callee.invalidated, key)
      && ParameterByte(caller, call, live, callee.invalidated, key)
      && FrameByte(caller, call, live, callee.invalidated, key)
  }

  ghost predicate OrdinaryByte(caller: Caller, call: Call, live: set<Identity>, rows: set<MemoryRange>, key: MemoryKey) {
    !Supplied(call, key.owner) ==> (Hit(rows, key) <==> Hit(caller.invalidated, key) && Survives(key.owner, live))
  }

  ghost predicate ParameterByte(caller: Caller, call: Call, live: set<Identity>, rows: set<MemoryRange>, key: MemoryKey) {
    key.owner.ObjectOwner? && key.owner.id in call.bindings ==>
      (Hit(rows, key)
       <==> (key.owner.id in live && Hit(caller.invalidated, key))
            || BoundByteInvalidated(caller, call.bindings[key.owner.id], key))
  }

  ghost predicate FrameByte(caller: Caller, call: Call, live: set<Identity>, rows: set<MemoryRange>, key: MemoryKey) {
    key.owner == ObjectOwner(Frame(call.context)) ==>
      (Hit(rows, key)
       <==> (Frame(call.context) in live && Hit(caller.invalidated, key)) || StackByteInvalidated(caller, call.stackAtoms, key))
  }

  /** Some object the binding names is invalidated where the parameter's bytes lie in it. */
  ghost predicate BoundByteInvalidated(caller: Caller, binding: Value, key: MemoryKey) {
    binding.Finite? && exists a | a in binding.refs :: Hit(caller.invalidated, ByteBehind(a, key))
  }

  /** How many bytes of a frame cell lie below the first argument word, where no caller byte is seen. */
  function Hidden(key: MemoryKey): nat { if key.offset < 4 then 4 - key.offset else 0 }

  /** Some alternative of the caller's stack is invalidated where the other bytes of the frame cell lie in it. */
  ghost predicate StackByteInvalidated(caller: Caller, stackAtoms: seq<Atom>, key: MemoryKey) {
    key.width > Hidden(key) && exists a | a in stackAtoms :: Hit(caller.invalidated, CallerByte(a, key))
  }

  function CallerByte(a: Atom, key: MemoryKey): MemoryKey
    requires key.width >= Hidden(key)
  {
    MemoryKey(ObjectOwner(a.id), AtomOffset(a) + key.offset + Hidden(key) - 4, key.width - Hidden(key))
  }

  function ParameterRow(token: Identity, a: Atom, row: MemoryRange): MemoryRange {
    MemoryRange(ObjectOwner(token), row.start - AtomOffset(a), row.end - AtomOffset(a))
  }

  lemma ParameterRowParts(caller: Caller, bindings: Bindings, moved: MemoryRange) returns (token: Identity, a: Atom, row: MemoryRange)
    requires moved in ParameterRows(caller, bindings)
    ensures token in bindings && bindings[token].Finite? && a in bindings[token].refs && row in caller.invalidated
    ensures row.owner == ObjectOwner(a.id) && moved == ParameterRow(token, a, row)
  {
    token, a, row :| token in bindings && bindings[token].Finite? && a in bindings[token].refs && row in caller.invalidated
                     && row.owner == ObjectOwner(a.id)
                     && moved == MemoryRange(ObjectOwner(token), row.start - AtomOffset(a), row.end - AtomOffset(a));
  }

  function ByteBehind(a: Atom, key: MemoryKey): MemoryKey {
    MemoryKey(ObjectOwner(a.id), AtomOffset(a) + key.offset, key.width)
  }

  lemma ParameterRowOverlaps(token: Identity, a: Atom, row: MemoryRange, key: MemoryKey)
    requires key.owner == ObjectOwner(token) && row.owner == ObjectOwner(a.id)
    ensures Overlaps(ParameterRow(token, a, row), key) <==> Overlaps(row, ByteBehind(a, key))
  {
  }

  lemma ParameterRowsExact(caller: Caller, bindings: Bindings, token: Identity, key: MemoryKey)
    requires token in bindings && key.owner == ObjectOwner(token)
    ensures Hit(ParameterRows(caller, bindings), key) <==> BoundByteInvalidated(caller, bindings[token], key)
  {
    if Hit(ParameterRows(caller, bindings), key) {
      var moved :| moved in ParameterRows(caller, bindings) && Overlaps(moved, key);
      var t, a, row := ParameterRowParts(caller, bindings, moved);
      ParameterRowOverlaps(token, a, row, key);
      assert Hit(caller.invalidated, ByteBehind(a, key));
    }
    if BoundByteInvalidated(caller, bindings[token], key) {
      var a :| a in bindings[token].refs && Hit(caller.invalidated, ByteBehind(a, key));
      var row :| row in caller.invalidated && Overlaps(row, ByteBehind(a, key));
      ParameterRowOverlaps(token, a, row, key);
      assert ParameterRow(token, a, row) in ParameterRows(caller, bindings);
    }
  }

  lemma RowOwners(caller: Caller, call: Call)
    requires ValidCall(call)
    ensures forall row | row in ParameterRows(caller, call.bindings) ::
              row.owner.ObjectOwner? && row.owner.id in call.bindings && OwnerOf(row.owner) == Some(row.owner.id)
    ensures forall row | row in StackRows(caller, call.stackAtoms, call.context) :: row.owner == ObjectOwner(Frame(call.context))
  {
  }

  ghost predicate KeptHit(caller: Caller, live: set<Identity>, key: MemoryKey) {
    Hit(caller.invalidated, key) && Survives(key.owner, live)
  }

  lemma ProjectedHit(caller: Caller, call: Call, live: set<Identity>, key: MemoryKey)
    ensures Hit(ProjectedRows(caller, call, live), key)
        <==> KeptHit(caller, live, key) || Hit(ParameterRows(caller, call.bindings), key)
             || Hit(StackRows(caller, call.stackAtoms, call.context), key)
  {
    var kept := set row | row in caller.invalidated && Kept(row.owner, live);
    assert Hit(kept, key) <==> KeptHit(caller, live, key);
  }

  lemma OrdinaryHeld(caller: Caller, call: Call, live: set<Identity>, key: MemoryKey)
    requires ValidCall(call)
    ensures OrdinaryByte(caller, call, live, ProjectedRows(caller, call, live), key)
  {
    RowOwners(caller, call);
    ProjectedHit(caller, call, live, key);
  }

  lemma ParameterHeld(caller: Caller, call: Call, live: set<Identity>, key: MemoryKey)
    requires ValidCall(call)
    ensures ParameterByte(caller, call, live, ProjectedRows(caller, call, live), key)
  {
    if key.owner.ObjectOwner? && key.owner.id in call.bindings {
      RowOwners(caller, call);
      ProjectedHit(caller, call, live, key);
      ParameterRowsExact(caller, call.bindings, key.owner.id, key);
    }
  }

  lemma FrameHeld(caller: Caller, call: Call, live: set<Identity>, key: MemoryKey)
    requires ValidCall(call) && key.width >= 1
    ensures FrameByte(caller, call, live, ProjectedRows(caller, call, live), key)
  {
    if key.owner == ObjectOwner(Frame(call.context)) {
      RowOwners(caller, call);
      ProjectedHit(caller, call, live, key);
      StackRowsExact(caller, call.stackAtoms, call.context, key);
    }
  }

  lemma InvalidationsHold(caller: Caller, call: Call, live: set<Identity>, callee: Callee)
    requires ValidCall(call) && Ordered(ProjectedRows(caller, call, live))
    requires callee.invalidated == Normalized(ProjectedRows(caller, call, live))
    ensures HoldsCallerInvalidations(caller, call, live, callee)
  {
    var rows := ProjectedRows(caller, call, live);
    forall key: MemoryKey | key.width >= 1
      ensures OrdinaryByte(caller, call, live, callee.invalidated, key)
      ensures ParameterByte(caller, call, live, callee.invalidated, key)
      ensures FrameByte(caller, call, live, callee.invalidated, key)
    {
      NormalizedHitsExactly(rows, key);
      OrdinaryHeld(caller, call, live, key);
      ParameterHeld(caller, call, live, key);
      FrameHeld(caller, call, live, key);
      SameHits(caller, call, live, rows, callee.invalidated, key);
    }
  }

  lemma SameHits(caller: Caller, call: Call, live: set<Identity>, rows: set<MemoryRange>, rows': set<MemoryRange>, key: MemoryKey)
    requires Hit(rows, key) <==> Hit(rows', key)
    ensures OrdinaryByte(caller, call, live, rows, key) ==> OrdinaryByte(caller, call, live, rows', key)
    ensures ParameterByte(caller, call, live, rows, key) ==> ParameterByte(caller, call, live, rows', key)
    ensures FrameByte(caller, call, live, rows, key) ==> FrameByte(caller, call, live, rows', key)
  {
  }

  lemma BindingsHold(caller: Caller, call: Call, live: set<Identity>, callee: Callee)
    requires callee.relational == ProjectedBindings(caller, call, live)
    ensures HoldsBindings(caller, call, live, callee)
  {
  }

  lemma MemoryHolds(caller: Caller, call: Call, live: set<Identity>, callee: Callee)
    requires ValidCall(call) && callee.memory == ProjectedMemory(caller, call, live)
    ensures HoldsCallerMemory(caller, call, live, callee)
  {
  }

  /** native_callee_state, from the projected words on; an inverted range is an error. */
  method NativeCalleeState(caller: Caller, call: Call) returns (callee: Option<Callee>, live: set<Identity>)
    requires ValidCall(call)
    ensures LeastClosed(live, RootOwners(caller, call), CallerMemory(caller, call.context), caller.relational)
    ensures callee.Some? <==> Ordered(ProjectedRows(caller, call, live))
    ensures callee.Some? ==>
              && callee.value.memory == ProjectedMemory(caller, call, live)
              && callee.value.relational == ProjectedBindings(caller, call, live)
              && callee.value.invalidated == Normalized(ProjectedRows(caller, call, live))
              && HoldsCallerMemory(caller, call, live, callee.value)
              && HoldsBindings(caller, call, live, callee.value)
              && HoldsCallerInvalidations(caller, call, live, callee.value)
  {
    live := TraceLive(RootOwners(caller, call), CallerMemory(caller, call.context), caller.relational);
    var normal := NormalizeRanges(ProjectedRows(caller, call, live));
    if normal.None? { return None, live; }
    var state := Callee(ProjectedMemory(caller, call, live), ProjectedBindings(caller, call, live), normal.value);
    MemoryHolds(caller, call, live, state);
    BindingsHold(caller, call, live, state);
    InvalidationsHold(caller, call, live, state);
    callee := Some(state);
  }

  // ----- nothing the callee can name has lost anything

  /** The callee can name this owner through a register other than its stack pointer, a memory cell, a
      callback or a relational binding. */
  ghost predicate NamedByCallee(caller: Caller, call: Call, live: set<Identity>, o: Identity)
    requires ValidCall(call)
  {
    || (exists i | 0 <= i < ESP :: o in NamedOwners(call.registers[i]))
    || (exists key | key in ProjectedMemory(caller, call, live) :: o in NamedOwners(ProjectedMemory(caller, call, live)[key]))
    || (exists name | name in caller.callbacks :: o in NamedOwners(caller.callbacks[name]))
    || (exists id | id in ProjectedBindings(caller, call, live) :: o in NamedOwners(ProjectedBindings(caller, call, live)[id]))
  }

  lemma RootNamesAreLive(caller: Caller, call: Call, live: set<Identity>, v: Value, o: Identity)
    requires ValidCall(call) && RootOwners(caller, call) <= live
    requires IsRootValue(caller, call, v) && o in NamedOwners(v)
    ensures o in live
  {
    assert v in RootValues(caller, call);
    assert o in RootOwners(caller, call);
  }

  lemma CellNamesAreLive(caller: Caller, call: Call, live: set<Identity>, key: MemoryKey, o: Identity)
    requires ValidCall(call) && RootOwners(caller, call) <= live
    requires Closed(live, CallerMemory(caller, call.context), caller.relational)
    requires key in ProjectedMemory(caller, call, live) && o in NamedOwners(ProjectedMemory(caller, call, live)[key])
    ensures o in live
  {
    if key in call.projected {
      assert call.projected[key] in call.projected.Values;
      RootNamesAreLive(caller, call, live, call.projected[key], o);
    } else if OwnerOf(key.owner).None? {
      assert key in CallerMemory(caller, call.context);
      RootNamesAreLive(caller, call, live, caller.cells[key], o);
    } else {
      assert key in CallerMemory(caller, call.context);
      assert CallerMemory(caller, call.context)[key] == ProjectedMemory(caller, call, live)[key];
    }
  }

  lemma BindingNamesAreLive(caller: Caller, call: Call, live: set<Identity>, id: Identity, o: Identity)
    requires ValidCall(call) && RootOwners(caller, call) <= live
    requires Closed(live, CallerMemory(caller, call.context), caller.relational)
    requires id in ProjectedBindings(caller, call, live) && o in NamedOwners(ProjectedBindings(caller, call, live)[id])
    ensures o in live
  {
    if id == Frame(call.context) {
      RootNamesAreLive(caller, call, live, FrameBinding(call.stackAtoms), o);
    } else if id in call.bindings {
      assert call.bindings[id] in call.bindings.Values;
      RootNamesAreLive(caller, call, live, call.bindings[id], o);
    }
  }

  lemma NamedAreLive(caller: Caller, call: Call, live: set<Identity>, o: Identity)
    requires ValidCall(call) && RootOwners(caller, call) <= live
    requires Closed(live, CallerMemory(caller, call.context), caller.relational)
    requires NamedByCallee(caller, call, live, o)
    ensures o in live
  {
    if i :| 0 <= i < ESP && o in NamedOwners(call.registers[i]) {
      RootNamesAreLive(caller, call, live, call.registers[i], o);
    } else if name :| name in caller.callbacks && o in NamedOwners(caller.callbacks[name]) {
      assert caller.callbacks[name] in caller.callbacks.Values;
      RootNamesAreLive(caller, call, live, caller.callbacks[name], o);
    } else if key :| key in ProjectedMemory(caller, call, live) && o in NamedOwners(ProjectedMemory(caller, call, live)[key]) {
      CellNamesAreLive(caller, call, live, key, o);
    } else {
      var id :| id in ProjectedBindings(caller, call, live) && o in NamedOwners(ProjectedBindings(caller, call, live)[id]);
      BindingNamesAreLive(caller, call, live, id, o);
    }
  }

  /** A caller binding the call itself replaces. */
  predicate Rebound(call: Call, id: Identity) { id in call.bindings || id == Frame(call.context) }

  function NewBinding(call: Call, id: Identity): Value
    requires Rebound(call, id)
  {
    if id == Frame(call.context) then FrameBinding(call.stackAtoms) else call.bindings[id]
  }

  /** A caller binding of a live owner that the call replaces still named this owner. */
  ghost predicate NamedByReplaced(caller: Caller, call: Call, live: set<Identity>, o: Identity) {
    exists id :: id in live && id in caller.relational && Rebound(call, id) && o in NamedOwners(caller.relational[id])
  }

  lemma RootIsNamed(caller: Caller, call: Call, live: set<Identity>, v: Value, o: Identity)
    requires ValidCall(call) && IsRootValue(caller, call, v) && o in NamedOwners(v)
    ensures NamedByCallee(caller, call, live, o)
  {
    var memory, bindings := ProjectedMemory(caller, call, live), ProjectedBindings(caller, call, live);
    if v in call.projected.Values {
      var key :| key in call.projected && call.projected[key] == v;
      assert memory[key] == v;
    } else if v in call.bindings.Values {
      var id :| id in call.bindings && call.bindings[id] == v;
      assert bindings[id] == v;
    } else if v == FrameBinding(call.stackAtoms) {
      assert bindings[Frame(call.context)] == v;
    } else if v in caller.callbacks.Values {
      var name :| name in caller.callbacks && caller.callbacks[name] == v;
    } else if key :| key in CallerMemory(caller, call.context) && OwnerOf(key.owner).None? && caller.cells[key] == v {
      assert key in memory && memory[key] == v;
    }
  }

  lemma LiveCellIsNamed(caller: Caller, call: Call, live: set<Identity>, key: MemoryKey, o: Identity)
    requires ValidCall(call) && key in CallerMemory(caller, call.context)
    requires OwnerOf(key.owner).Some? && OwnerOf(key.owner).value in live && o in NamedOwners(caller.cells[key])
    ensures NamedByCallee(caller, call, live, o)
  {
    assert key in ProjectedMemory(caller, call, live) && ProjectedMemory(caller, call, live)[key] == caller.cells[key];
  }

  lemma LiveBindingIsNamed(caller: Caller, call: Call, live: set<Identity>, id: Identity, o: Identity)
    requires ValidCall(call) && id in caller.relational && id in live && o in NamedOwners(caller.relational[id])
    ensures NamedByCallee(caller, call, live, o) || NamedByReplaced(caller, call, live, o)
  {
    if !Rebound(call, id) {
      assert id in ProjectedBindings(caller, call, live) && ProjectedBindings(caller, call, live)[id] == caller.relational[id];
    }
  }

  /** Nothing is kept alive that the callee cannot name, but for what replaced bindings named. */
  lemma LiveIsNamed(caller: Caller, call: Call, live: set<Identity>, o: Identity)
    requires ValidCall(call)
    requires LeastClosed(live, RootOwners(caller, call), CallerMemory(caller, call.context), caller.relational)
    requires o in live
    ensures NamedByCallee(caller, call, live, o) || NamedByReplaced(caller, call, live, o)
  {
    var named := set x | x in live && (NamedByCallee(caller, call, live, x) || NamedByReplaced(caller, call, live, x));
    forall x | x in RootOwners(caller, call) ensures x in named {
      var v :| v in RootValues(caller, call) && x in NamedOwners(v);
      RootIsNamed(caller, call, live, v, x);
    }
    var cells := CallerMemory(caller, call.context);
    forall key, x | key in cells && OwnerOf(key.owner).Some? && OwnerOf(key.owner).value in named && x in NamedOwners(cells[key])
      ensures x in named
    {
      LiveCellIsNamed(caller, call, live, key, x);
    }
    forall id, x | id in caller.relational && id in named && x in NamedOwners(caller.relational[id]) ensures x in named {
      LiveBindingIsNamed(caller, call, live, id, x);
    }
    assert Closed(named, cells, caller.relational);
  }

  /** When the frame is not reused, whatever the callee can name keeps every cell and every invalidated byte
      the caller had for it, and keeps its caller binding exactly when the call does not replace it by another. */
  lemma NamedOwnersAreWhole(caller: Caller, call: Call, live: set<Identity>, o: Identity)
    requires ValidCall(call) && !FrameReused(caller, call.context)
    requires LeastClosed(live, RootOwners(caller, call), CallerMemory(caller, call.context), caller.relational)
    requires NamedByCallee(caller, call, live, o)
    ensures forall key | key in caller.cells && OwnerOf(key.owner) == Some(o) ::
              key in ProjectedMemory(caller, call, live) && ProjectedMemory(caller, call, live)[key] == caller.cells[key]
    ensures forall key: MemoryKey | OwnerOf(key.owner) == Some(o) && Hit(caller.invalidated, key) ::
              Hit(ProjectedRows(caller, call, live), key)
    ensures o in caller.relational ==>
              && o in ProjectedBindings(caller, call, live)
              && (ProjectedBindings(caller, call, live)[o] == caller.relational[o]
                  <==> (Rebound(call, o) ==> NewBinding(call, o) == caller.relational[o]))
  {
    NamedAreLive(caller, call, live, o);
    forall key | key in caller.cells && OwnerOf(key.owner) == Some(o)
      ensures key in ProjectedMemory(caller, call, live) && ProjectedMemory(caller, call, live)[key] == caller.cells[key]
    {
      assert !InFrame(key.owner, call.context);
      assert key in call.projected ==> InFrame(key.owner, call.context);
    }
    forall key: MemoryKey | OwnerOf(key.owner) == Some(o) && Hit(caller.invalidated, key)
      ensures Hit(ProjectedRows(caller, call, live), key)
    {
      var row :| row in caller.invalidated && Overlaps(row, key);
      assert row in ProjectedRows(caller, call, live);
    }
  }

  /** The projection of a call that passes an unknown word in register 1: a token there, the frame in ESP. */
  function TokenCall(context: Context): Call {
    var token := Param(context, RegisterCoordinate(1));
    Call(context,
         seq(8, i => if i == 1 then Finite({}, {Object(token, 0)})
                     else if i == ESP then Finite({}, {Object(Frame(context), 0)})
                     else Bottom),
         map[], map[token := UnknownScalar], [])
  }

  /** The token and its binding are the ones that parameterising the register makes. */
  lemma TokenCallIsProjected(context: Context, limit: nat)
    requires limit > 0
    ensures ParameterizeCallValue(RegisterCoordinate(1), UnknownScalar, true, context, [], limit, map[])
         == (TokenCall(context).registers[1], TokenCall(context).bindings)
  {
    var token := Param(context, RegisterCoordinate(1));
    TokenIsExact(token, limit);
    assert map[][token := UnknownScalar] == map[token := UnknownScalar];
  }

  /** A context entered again rebinds its own token while no cell shows the frame as reused: the caller's binding of a
      live, named owner is lost. */
  lemma ReboundBindingLost(context: Context)
    ensures var token, call := Param(context, RegisterCoordinate(1)), TokenCall(context);
            var caller := Caller(map[], map[], map[token := Conflict], {});
            && ValidCall(call) && !FrameReused(caller, context)
            && LeastClosed({token}, RootOwners(caller, call), CallerMemory(caller, context), caller.relational)
            && NamedByCallee(caller, call, {token}, token)
            && ProjectedBindings(caller, call, {token})[token] == UnknownScalar != caller.relational[token]
  {
    var token, call := Param(context, RegisterCoordinate(1)), TokenCall(context);
    var caller := Caller(map[], map[], map[token := Conflict], {});
    var v := Finite({}, {Object(token, 0)});
    assert TransientOwner(token) == Some(token);
    assert NamedOwners(v) == {token} by { assert Object(token, 0) in v.refs; }
    assert call.registers[1] == v;
    TokenCallRoots(context, caller);
    assert CallerMemory(caller, context) == map[];
    assert NamedOwners(Conflict) == {};
  }

  lemma TokenCallRoots(context: Context, caller: Caller)
    requires caller == Caller(map[], map[], map[Param(context, RegisterCoordinate(1)) := Conflict], {})
    ensures RootOwners(caller, TokenCall(context)) == {Param(context, RegisterCoordinate(1))}
  {
    var token, call := Param(context, RegisterCoordinate(1)), TokenCall(context);
    var v := Finite({}, {Object(token, 0)});
    assert NamedOwners(v) == {token} by { assert Object(token, 0) in v.refs; }
    forall w | w in RootValues(caller, call) ensures w == v || NamedOwners(w) == {} { assert IsRootValue(caller, call, w); }
    assert v in RootValues(caller, call) by {
      assert call.registers[1] == v;
      assert IsRootValue(caller, call, v);
    }
  }

  // ----- the stack, seen from the callee

  /** A callee frame cell is invalidated exactly when the caller bytes that it sees above the stack pointer are, through
      one of the stack pointer's alternatives. */
  lemma StackRowsExact(caller: Caller, stackAtoms: seq<Atom>, context: Context, key: MemoryKey)
    requires key.owner == ObjectOwner(Frame(context)) && key.width >= 1
    ensures Hit(StackRows(caller, stackAtoms, context), key) <==> StackByteInvalidated(caller, stackAtoms, key)
  {
    if Hit(StackRows(caller, stackAtoms, context), key) {
      var shifted :| shifted in StackRows(caller, stackAtoms, context) && Overlaps(shifted, key);
      var row, a :| row in caller.invalidated && a in stackAtoms
                 && row.owner == ObjectOwner(a.id) && row.end > AtomOffset(a) && shifted == StackRow(row, a, context);
      assert Overlaps(row, CallerByte(a, key));
    }
    if StackByteInvalidated(caller, stackAtoms, key) {
      var a :| a in stackAtoms && Hit(caller.invalidated, CallerByte(a, key));
      var row :| row in caller.invalidated && Overlaps(row, CallerByte(a, key));
      assert StackRow(row, a, context) in StackRows(caller, stackAtoms, context);
      assert Overlaps(StackRow(row, a, context), key);
    }
  }

  /** caller_stack_ranges: a callee frame range moved back under one stack pointer alternative. */
  function CallerStackRow(row: MemoryRange, base: Atom): MemoryRange {
    MemoryRange(ObjectOwner(base.id),
                AtomOffset(base) + (if row.start > 4 then row.start else 4) - 4, AtomOffset(base) + row.end - 4)
  }

  /** Moving back undoes moving in, for every caller byte at or above the stack pointer. */
  lemma CallerStackRowInverts(row: MemoryRange, base: Atom, context: Context, key: MemoryKey)
    requires row.owner == ObjectOwner(base.id) && row.end > AtomOffset(base)
    requires key.owner == row.owner && key.width >= 1 && key.offset >= AtomOffset(base)
    ensures Overlaps(CallerStackRow(StackRow(row, base, context), base), key) <==> Overlaps(row, key)
  {
  }
}
