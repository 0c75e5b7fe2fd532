/** Repeated string stores: the ranges they may write, and what forgetting those ranges does to memory. */
module RepeatWrites {
  import opened Words
  import opened Identities
  import opened Values
  import opened Ranges
  import opened SparseMemory

  const MIN_OFFSET: int := -0x8000_0000_0000_0000
  const MAX_OFFSET: int := 0x7FFF_FFFF_FFFF_FFFF

  /** The ranges of a store; an offset that leaves signed 64 bits is an error of the whole run. */
  datatype Footprint = OffsetError | Unresolved | Rows(rows: set<MemoryRange>)

  function ObjectKey(a: Atom, width: nat): MemoryKey
    requires a.Object?
  {
    MemoryKey(ObjectOwner(a.id), a.offset, width)
  }

  function ScalarKey(w: Word, width: nat): MemoryKey { MemoryKey(Absolute, w, width) }

  /** reference_memory_keys: the addresses a word may stand for, when all of them are exact. */
  function ReferenceMemoryKeys(v: Value, width: nat): Option<set<MemoryKey>> {
    if !v.Finite? || (exists a | a in v.refs :: !a.Object?) then None
    else Some((set a | a in v.refs && a.Object? :: ObjectKey(a, width)) + (set w | w in v.scalars :: ScalarKey(w, width)))
  }

  predicate Backwards(direction: Word) { direction % 2 == 1 }

  /** The range one (address, count, direction) alternative writes. */
  function RepeatRow(key: MemoryKey, count: Word, backwards: bool, width: nat): MemoryRange {
    if backwards then MemoryRange(key.owner, key.offset - (count - 1) * width, key.offset + width)
    else MemoryRange(key.owner, key.offset, key.offset + count * width)
  }

  /** Iteration i of a store writes this byte. */
  predicate IterationTouches(key: MemoryKey, i: nat, backwards: bool, width: nat, byte: int) {
    var at := if backwards then key.offset - i * width else key.offset + i * width;
    at <= byte < at + width
  }

  ghost predicate StoreTouches(key: MemoryKey, count: Word, backwards: bool, width: nat, byte: int) {
    exists i: nat :: i < count && IterationTouches(key, i, backwards, width, byte)
  }

  /** The ranges contain exactly the bytes some iteration writes. */
  lemma RowIsExact(key: MemoryKey, count: Word, backwards: bool, width: nat, byte: int)
    requires count > 0 && width > 0
    ensures Contains(RepeatRow(key, count, backwards, width), key.owner, byte)
        <==> StoreTouches(key, count, backwards, width, byte)
  {
    var row := RepeatRow(key, count, backwards, width);
    if Contains(row, key.owner, byte) {
      var distance: int := if backwards then key.offset + width - 1 - byte else byte - key.offset;
      var i := IterationOf(distance, width, count);
      assert IterationTouches(key, i, backwards, width, byte);
    }
    if StoreTouches(key, count, backwards, width, byte) {
      var i: nat :| i < count && IterationTouches(key, i, backwards, width, byte);
      ProductMonotone(i, count - 1, width);
      assert (count - 1) * width + width == count * width;
    }
  }

  lemma IterationOf(distance: int, width: nat, count: nat) returns (i: nat)
    requires 0 <= distance < count * width && width > 0
    ensures i < count && i * width <= distance < i * width + width
  {
    i := distance / width;
    assert distance == width * (distance / width) + distance % width;
    if i >= count { ProductMonotone(count, i, width); }
  }

  lemma ProductMonotone(a: nat, b: nat, width: nat)
    requires a <= b
    ensures a * width <= b * width
  {
  }

  // ----- machine addresses

  /** The machine writes at addresses modulo 2^32. */
  ghost predicate MachineWrites(start: Word, count: Word, backwards: bool, width: nat, address: Word) {
    exists byte :: StoreTouches(ScalarKey(start, width), count, backwards, width, byte) && Wrap(byte) == address
  }

  predicate InAddressSpace(row: MemoryRange) { 0 <= row.start && row.end <= WORD_SIZE }

  predicate IsAddressSpace(row: MemoryRange) { row.start <= 0 && WORD_SIZE <= row.end }

  predicate NeverWraps(row: MemoryRange) { InAddressSpace(row) || IsAddressSpace(row) }

  /** The absolute range names exactly the addresses the machine writes. */
  ghost predicate RowIsMachineExact(start: Word, count: Word, backwards: bool, width: nat) {
    forall address: Word :: MachineWrites(start, count, backwards, width, address)
                       <==> Contains(RepeatRow(ScalarKey(start, width), count, backwards, width), Absolute, address)
  }

  lemma RowNames(start: Word, count: Word, backwards: bool, width: nat, byte: int)
    requires count > 0 && width > 0
    requires Contains(RepeatRow(ScalarKey(start, width), count, backwards, width), Absolute, byte)
    ensures MachineWrites(start, count, backwards, width, Wrap(byte))
  {
    RowIsExact(ScalarKey(start, width), count, backwards, width, byte);
  }

  lemma RowContainsStart(start: Word, count: Word, backwards: bool, width: nat)
    requires count > 0 && width > 0
    ensures Contains(RepeatRow(ScalarKey(start, width), count, backwards, width), Absolute, start)
  {
    ProductMonotone(1, count, width);
    ProductMonotone(0, count - 1, width);
  }

  /** Absolute ranges do not wrap, so they name the machine's bytes exactly when they stay inside the
      32-bit address space or swallow all of it. */
  lemma AbsoluteRowExactly(start: Word, count: Word, backwards: bool, width: nat)
    requires count > 0 && width > 0
    ensures RowIsMachineExact(start, count, backwards, width)
        <==> NeverWraps(RepeatRow(ScalarKey(start, width), count, backwards, width))
  {
    var row := RepeatRow(ScalarKey(start, width), count, backwards, width);
    RowContainsStart(start, count, backwards, width);
    if NeverWraps(row) {
      forall address: Word
        ensures MachineWrites(start, count, backwards, width, address) <==> Contains(row, Absolute, address)
      {
        if Contains(row, Absolute, address) {
          RowNames(start, count, backwards, width, address);
          WrapOfWord(address);
        }
        if MachineWrites(start, count, backwards, width, address) { WrittenIsNamed(start, count, backwards, width, address); }
      }
    } else {
      var byte := if row.start < 0 then -1 else WORD_SIZE;
      RowNames(start, count, backwards, width, byte);
      assert Wrap(byte) == if row.start < 0 then WORD_SIZE - 1 else 0;
      assert !Contains(row, Absolute, Wrap(byte));
    }
  }

  lemma WrittenIsNamed(start: Word, count: Word, backwards: bool, width: nat, address: Word)
    requires count > 0 && width > 0 && NeverWraps(RepeatRow(ScalarKey(start, width), count, backwards, width))
    requires MachineWrites(start, count, backwards, width, address)
    ensures Contains(RepeatRow(ScalarKey(start, width), count, backwards, width), Absolute, address)
  {
    var key := ScalarKey(start, width);
    RowContainsStart(start, count, backwards, width);
    var byte :| StoreTouches(key, count, backwards, width, byte) && Wrap(byte) == address;
    RowIsExact(key, count, backwards, width, byte);
    if 0 <= byte < WORD_SIZE { WrapOfWord(byte); }
  }

  /** Two words stored from 0xFFFFFFFC: the machine writes address 0, which the range does not name. */
  lemma WrappingStore()
    ensures MachineWrites(0xFFFF_FFFC, 2, false, 4, 0)
    ensures !Contains(RepeatRow(ScalarKey(0xFFFF_FFFC, 4), 2, false, 4), Absolute, 0)
  {
    var key := ScalarKey(0xFFFF_FFFC, 4);
    assert IterationTouches(key, 1, false, 4, WORD_SIZE);
    assert StoreTouches(key, 2, false, 4, WORD_SIZE) && Wrap(WORD_SIZE) == 0;
  }

  // ----- all alternatives

  predicate CountKnown(count: Value, direction: Value) {
    count.Finite? && count.refs == {} && direction.Finite? && direction.refs == {}
  }

  /** Some alternative of the operands writes this byte. */
  ghost predicate MayTouch(keys: set<MemoryKey>, count: Value, direction: Value, width: nat, owner: Owner, byte: int)
    requires count.Finite? && direction.Finite?
  {
    exists key, n, d :: key in keys && key.owner == owner && n in count.scalars && d in direction.scalars
                     && StoreTouches(key, n, Backwards(d), width, byte)
  }

  predicate OffsetsFit(row: MemoryRange) { MIN_OFFSET <= row.start && row.end <= MAX_OFFSET }

  function RepeatRows(keys: set<MemoryKey>, count: Value, direction: Value, width: nat): set<MemoryRange>
    requires count.Finite? && direction.Finite?
  {
    set key, n, d | key in keys && n in count.scalars && n != 0 && d in direction.scalars
      :: RepeatRow(key, n, Backwards(d), width)
  }

  lemma RowsNonEmpty(keys: set<MemoryKey>, count: Value, direction: Value, width: nat)
    requires count.Finite? && direction.Finite? && width > 0
    ensures NonEmpty(RepeatRows(keys, count, direction, width))
  {
    forall row | row in RepeatRows(keys, count, direction, width) ensures row.start < row.end {
      var key, n, d :| key in keys && n in count.scalars && n != 0 && d in direction.scalars
                    && row == RepeatRow(key, n, Backwards(d), width);
      ProductMonotone(1, n, width);
      ProductMonotone(0, n - 1, width);
    }
  }

  lemma RowsOnlyTouched(keys: set<MemoryKey>, count: Value, direction: Value, width: nat, owner: Owner, byte: int)
    requires count.Finite? && direction.Finite? && width > 0
    requires CoversByte(RepeatRows(keys, count, direction, width), owner, byte)
    ensures MayTouch(keys, count, direction, width, owner, byte)
  {
    var row :| row in RepeatRows(keys, count, direction, width) && Contains(row, owner, byte);
    var key, n, d :| key in keys && n in count.scalars && n != 0 && d in direction.scalars
                  && row == RepeatRow(key, n, Backwards(d), width);
    RowIsExact(key, n, Backwards(d), width, byte);
  }

  lemma TouchedInRows(keys: set<MemoryKey>, count: Value, direction: Value, width: nat, owner: Owner, byte: int)
    requires count.Finite? && direction.Finite? && width > 0
    requires MayTouch(keys, count, direction, width, owner, byte)
    ensures CoversByte(RepeatRows(keys, count, direction, width), owner, byte)
  {
    var key, n, d :| key in keys && key.owner == owner && n in count.scalars && d in direction.scalars
                  && StoreTouches(key, n, Backwards(d), width, byte);
    assert n != 0;
    RowIsExact(key, n, Backwards(d), width, byte);
    assert RepeatRow(key, n, Backwards(d), width) in RepeatRows(keys, count, direction, width);
  }

  /** Over all alternatives the footprint contains exactly the bytes some iteration of some alternative writes. */
  lemma RowsAreExact(keys: set<MemoryKey>, count: Value, direction: Value, width: nat, owner: Owner, byte: int)
    requires count.Finite? && direction.Finite? && width > 0
    ensures CoversByte(RepeatRows(keys, count, direction, width), owner, byte)
        <==> MayTouch(keys, count, direction, width, owner, byte)
  {
    if CoversByte(RepeatRows(keys, count, direction, width), owner, byte) {
      RowsOnlyTouched(keys, count, direction, width, owner, byte);
    }
    if MayTouch(keys, count, direction, width, owner, byte) {
      TouchedInRows(keys, count, direction, width, owner, byte);
    }
  }

  /** The invalidation a store leaves behind depends only on the bytes it may write: alternatives that may touch the
      same bytes have footprints with one normal form. */
  lemma FootprintByBytes(keys: set<MemoryKey>, count: Value, direction: Value, width: nat, keys': set<MemoryKey>,
                         count': Value, direction': Value, width': nat)
    requires count.Finite? && direction.Finite? && count'.Finite? && direction'.Finite? && width > 0 && width' > 0
    requires forall owner, byte ::
               MayTouch(keys, count, direction, width, owner, byte) <==> MayTouch(keys', count', direction', width', owner, byte)
    ensures Normalized(RepeatRows(keys, count, direction, width)) == Normalized(RepeatRows(keys', count', direction', width'))
  {
    var a, b := RepeatRows(keys, count, direction, width), RepeatRows(keys', count', direction', width');
    RowsNonEmpty(keys, count, direction, width);
    RowsNonEmpty(keys', count', direction', width');
    forall owner, byte ensures CoversByte(a, owner, byte) <==> CoversByte(b, owner, byte) {
      RowsAreExact(keys, count, direction, width, owner, byte);
      RowsAreExact(keys', count', direction', width', owner, byte);
    }
    NormalizedByBytes(a, b);
  }

  lemma RepeatRowsSplit(a: set<MemoryKey>, b: set<MemoryKey>, count: Value, direction: Value, width: nat)
    requires count.Finite? && direction.Finite?
    ensures RepeatRows(a + b, count, direction, width)
         == RepeatRows(a, count, direction, width) + RepeatRows(b, count, direction, width)
  {
  }

  /** repeated_write_ranges: the product of the address, count and direction alternatives. */
  method RepeatedWriteRanges(destination: Value, count: Value, direction: Value, width: nat)
    returns (footprint: Footprint)
    ensures footprint.Unresolved? <==> ReferenceMemoryKeys(destination, width).None? || !CountKnown(count, direction)
    ensures footprint.Rows? ==>
              footprint.rows == RepeatRows(ReferenceMemoryKeys(destination, width).value, count, direction, width)
    ensures footprint.OffsetError? ==>
              exists row | row in RepeatRows(ReferenceMemoryKeys(destination, width).value, count, direction, width)
                :: !OffsetsFit(row)
    ensures footprint.Rows? ==> forall row | row in footprint.rows :: OffsetsFit(row)
  {
    var keys := ReferenceMemoryKeys(destination, width);
    if keys.None? || !CountKnown(count, direction) { return Unresolved; }
    var rows: set<MemoryRange> := {};
    var todo := keys.value;
    while todo != {}
      invariant todo <= keys.value
      invariant rows == RepeatRows(keys.value - todo, count, direction, width)
      invariant forall row | row in rows :: OffsetsFit(row)
    {
      var key :| key in todo;
      var added := KeyRows(key, count, direction, width);
      RepeatRowsSplit(keys.value - todo, {key}, count, direction, width);
      RepeatRowsSplit(keys.value - {key}, {key}, count, direction, width);
      assert keys.value - {key} + {key} == keys.value;
      if added.None? { return OffsetError; }
      assert keys.value - (todo - {key}) == (keys.value - todo) + {key};
      rows := rows + added.value;
      todo := todo - {key};
    }
    assert keys.value - todo == keys.value;
    return Rows(rows);
  }

  /** The two inner loops, over the counts and directions of one address. */
  method KeyRows(key: MemoryKey, count: Value, direction: Value, width: nat) returns (rows: Option<set<MemoryRange>>)
    requires count.Finite? && direction.Finite?
    ensures rows.Some? <==> forall row | row in RepeatRows({key}, count, direction, width) :: OffsetsFit(row)
    ensures rows.Some? ==> rows.value == RepeatRows({key}, count, direction, width)
  {
    var result: set<MemoryRange> := {};
    var counts := count.scalars;
    while counts != {}
      invariant counts <= count.scalars
      invariant result == set n, d | n in count.scalars && n !in counts && n != 0 && d in direction.scalars
                            :: RepeatRow(key, n, Backwards(d), width)
      invariant forall row | row in result :: OffsetsFit(row)
    {
      var n :| n in counts;
      var directions := if n == 0 then {} else direction.scalars;
      ghost var all := directions;
      ghost var before := result;
      while directions != {}
        invariant directions <= all
        invariant result == before + set d | d in all && d !in directions :: RepeatRow(key, n, Backwards(d), width)
        invariant forall row | row in result :: OffsetsFit(row)
      {
        var d :| d in directions;
        directions := directions - {d};
        var row := RepeatRow(key, n, Backwards(d), width);
        if !OffsetsFit(row) {
          assert row in RepeatRows({key}, count, direction, width);
          return None;
        }
        result := result + {row};
      }
      counts := counts - {n};
    }
    assert result == RepeatRows({key}, count, direction, width);
    return Some(result);
  }

  /** object_scoped_repeat_write_ranges: with an unknown count, everything ahead in the object. */
  function ObjectScopedRow(a: Atom, direction: Option<bool>, width: nat): MemoryRange {
    if a.Object? && direction.Some? then
      MemoryRange(ObjectOwner(a.id),
                  if direction.value then MIN_OFFSET else a.offset,
                  if direction.value then a.offset + width else MAX_OFFSET + 1)
    else MemoryRange(ObjectOwner(a.id), MIN_OFFSET, MAX_OFFSET + 1)
  }

  function KnownDirections(direction: Value): Option<set<bool>> {
    if direction.Finite? && direction.refs == {} && direction.scalars != {} then
      Some(set d | d in direction.scalars :: Backwards(d))
    else None
  }

  function ObjectScopedRows(destination: Value, direction: Value, width: nat): Option<set<MemoryRange>> {
    if !destination.Finite? || destination.scalars != {} || destination.refs == {}
       || (exists a | a in destination.refs :: a.Other?) then None
    else
      match KnownDirections(direction)
      case None => Some(set a | a in destination.refs :: ObjectScopedRow(a, None, width))
      case Some(directions) =>
        Some(set a, d | a in destination.refs && d in directions :: ObjectScopedRow(a, Some(d), width))
  }

  predicate DirectionAllowed(direction: Value, backwards: bool) {
    match KnownDirections(direction)
    case None => true
    case Some(directions) => backwards in directions
  }

  /** Whatever the count turns out to be, the object-scoped ranges contain the bytes a store into one of the
      named objects writes, as long as those bytes have signed 64-bit offsets. */
  lemma ObjectScopedRowsCover(destination: Value, direction: Value, width: nat, a: Atom, offset: int, count: Word,
                              backwards: bool, byte: int)
    requires ObjectScopedRows(destination, direction, width).Some?
    requires a in destination.refs && (a.Object? ==> offset == a.offset)
    requires DirectionAllowed(direction, backwards) && MIN_OFFSET <= byte <= MAX_OFFSET
    requires StoreTouches(MemoryKey(ObjectOwner(a.id), offset, width), count, backwards, width, byte)
    ensures CoversByte(ObjectScopedRows(destination, direction, width).value, ObjectOwner(a.id), byte)
  {
    var key := MemoryKey(ObjectOwner(a.id), offset, width);
    var i: nat :| i < count && IterationTouches(key, i, backwards, width, byte);
    ProductMonotone(0, i, width);
    var row := ObjectScopedRow(a, if KnownDirections(direction).None? then None else Some(backwards), width);
    assert Contains(row, ObjectOwner(a.id), byte);
    assert row in ObjectScopedRows(destination, direction, width).value;
  }

  datatype StoreOutcome = Failed | Invalidated(rows: set<MemoryRange>) | InvalidatedEverything

  /** The widening step of rep_movs / rep_stos, taken when the store has no single exact shape: forget the
      exact footprint, or the rest of the object, or all of memory. */
  method WidenRepeatedStore(memory: Memory, destination: Value, count: Value, direction: Value, width: nat,
                            ghost baseline: map<MemoryKey, Value>)
    returns (outcome: StoreOutcome)
    modifies memory
    ensures outcome.Failed? ==> memory.State() == old(memory.State())
    ensures outcome.Invalidated? ==>
              && forall key :: MemoryValue(memory.State(), key, baseline)
                            == if Hit(outcome.rows, key) then UnknownScalar
                               else MemoryValue(old(memory.State()), key, baseline)
    ensures outcome.InvalidatedEverything? ==> forall key :: MemoryValue(memory.State(), key, baseline) == UnknownScalar
    ensures outcome.Invalidated? ==>
              if ReferenceMemoryKeys(destination, width).Some? && CountKnown(count, direction)
              then outcome.rows == RepeatRows(ReferenceMemoryKeys(destination, width).value, count, direction, width)
              else Some(outcome.rows) == ObjectScopedRows(destination, direction, width)
    ensures outcome.Failed? ==>
              ReferenceMemoryKeys(destination, width).Some? && CountKnown(count, direction)
  {
    var footprint := RepeatedWriteRanges(destination, count, direction, width);
    match footprint
    case OffsetError => return Failed;
    case Rows(rows) =>
      if rows != {} { memory.InvalidateRanges(rows, baseline); }
      return Invalidated(rows);
    case Unresolved =>
      var scoped := ObjectScopedRows(destination, direction, width);
      if scoped.Some? {
        memory.InvalidateRanges(scoped.value, baseline);
        return Invalidated(scoped.value);
      }
      memory.InvalidateAll(baseline);
      return InvalidatedEverything;
  }
}
