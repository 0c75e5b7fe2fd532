/** Byte ranges of memory owners, and the normal form the kernel keeps its invalidated ranges in. */
module Ranges {
  import opened Identities

  const SEGMENT_WIDTH: int := 0x1_0000_0000_0000_0000

  /** A memory owner: one object, or the flat absolute address space. */
  datatype Owner = Absolute | ObjectOwner(id: Identity)

  datatype MemoryKey = MemoryKey(owner: Owner, offset: int, width: nat)

  /** The half-open byte range [start, end) of an owner. */
  datatype MemoryRange = MemoryRange(owner: Owner, start: int, end: int)

  // ----- compact coordinates

  /** A coordinate stored as a signed 8-bit base-2^64 segment and an unsigned low word. */
  datatype Coordinate = Coordinate(segment: int, low: int)

  function SplitCoordinate(value: int): Option<Coordinate> {
    var segment := value / SEGMENT_WIDTH;
    if -128 <= segment < 128 then Some(Coordinate(segment, value % SEGMENT_WIDTH)) else None
  }

  function CoordinateValue(c: Coordinate): int { c.segment * SEGMENT_WIDTH + c.low }

  /** The compact form loses nothing, exists exactly on [-2^71, 2^71), and orders as its value does. */
  lemma CompactCoordinates(value: int, other: int)
    ensures SplitCoordinate(value).Some? <==> -128 * SEGMENT_WIDTH <= value < 128 * SEGMENT_WIDTH
    ensures SplitCoordinate(value).Some? ==>
              var c := SplitCoordinate(value).value;
              && 0 <= c.low < SEGMENT_WIDTH
              && CoordinateValue(c) == value
              && forall d: Coordinate :: 0 <= d.low < SEGMENT_WIDTH && CoordinateValue(d) == value ==> d == c
    ensures SplitCoordinate(value).Some? && SplitCoordinate(other).Some? ==>
              var c, d := SplitCoordinate(value).value, SplitCoordinate(other).value;
              value < other <==> c.segment < d.segment || (c.segment == d.segment && c.low < d.low)
  {
  }

  // ----- what a set of ranges covers

  predicate Overlaps(row: MemoryRange, key: MemoryKey) {
    row.owner == key.owner && key.offset < row.end && row.start < key.offset + key.width
  }

  predicate Hit(rows: set<MemoryRange>, key: MemoryKey) { exists row | row in rows :: Overlaps(row, key) }

  predicate Contains(row: MemoryRange, owner: Owner, byte: int) {
    row.owner == owner && row.start <= byte < row.end
  }

  ghost predicate CoversByte(rows: set<MemoryRange>, owner: Owner, byte: int) {
    exists row | row in rows :: Contains(row, owner, byte)
  }

  /** Half-integer positions: the range [s, e) marks every position from 2s to 2e.  Touching ranges mark a
      common position and empty ranges mark their own, which is how the merge treats them. */
  predicate Marks(row: MemoryRange, owner: Owner, position: int) {
    row.owner == owner && 2 * row.start <= position <= 2 * row.end
  }

  ghost predicate Marked(rows: set<MemoryRange>, owner: Owner, position: int) {
    exists row | row in rows :: Marks(row, owner, position)
  }

  ghost predicate SameMarks(a: set<MemoryRange>, b: set<MemoryRange>) {
    forall owner, position :: Marked(a, owner, position) <==> Marked(b, owner, position)
  }

  predicate Ordered(rows: set<MemoryRange>) { forall row | row in rows :: row.start <= row.end }

  /** Two ranges that neither overlap nor touch. */
  predicate Apart(a: MemoryRange, b: MemoryRange) {
    a.owner == b.owner ==> a.end < b.start || b.end < a.start
  }

  predicate Separated(rows: set<MemoryRange>) {
    forall a, b | a in rows && b in rows && a != b :: Apart(a, b)
  }

  // ----- the normal form

  /** A maximal run of marked positions. */
  ghost predicate IsRun(rows: set<MemoryRange>, run: MemoryRange) {
    && run.start <= run.end
    && (forall position | 2 * run.start <= position <= 2 * run.end :: Marked(rows, run.owner, position))
    && !Marked(rows, run.owner, 2 * run.start - 1)
    && !Marked(rows, run.owner, 2 * run.end + 1)
  }

  /** The maximal runs; their endpoints are necessarily endpoints of rows. */
  ghost function Normalized(rows: set<MemoryRange>): set<MemoryRange> {
    set a, b | a in rows && b in rows && IsRun(rows, MemoryRange(a.owner, a.start, b.end))
      :: MemoryRange(a.owner, a.start, b.end)
  }

  /** Any separated set with the same marks is the normal form. */
  lemma NormalFormUnique(rows: set<MemoryRange>, m: set<MemoryRange>)
    requires Ordered(rows) && Ordered(m) && Separated(m) && SameMarks(rows, m)
    ensures m == Normalized(rows)
  {
    forall run | run in m ensures run in Normalized(rows) {
      RunOfSeparated(rows, m, run);
      RunEndpoints(rows, run);
    }
    forall run | run in Normalized(rows) ensures run in m {
      RunIsMember(rows, m, run);
    }
  }

  lemma RunIsMember(rows: set<MemoryRange>, m: set<MemoryRange>, run: MemoryRange)
    requires Ordered(m) && Separated(m) && SameMarks(rows, m) && IsRun(rows, run)
    ensures run in m
  {
    assert Marked(m, run.owner, 2 * run.start) && !Marked(m, run.owner, 2 * run.start - 1);
    assert !Marked(m, run.owner, 2 * run.end + 1);
    var row :| row in m && Marks(row, run.owner, 2 * run.start);
    assert !Marks(row, run.owner, 2 * run.start - 1) && !Marks(row, run.owner, 2 * run.end + 1);
    assert row.start == run.start && row.end <= run.end;
    assert row.end < run.end ==> Marked(m, run.owner, 2 * row.end + 1);
  }

  lemma RunOfSeparated(rows: set<MemoryRange>, m: set<MemoryRange>, run: MemoryRange)
    requires Ordered(m) && Separated(m) && SameMarks(rows, m) && run in m
    ensures IsRun(rows, run)
  {
    forall position | 2 * run.start <= position <= 2 * run.end ensures Marked(rows, run.owner, position) {
      assert Marks(run, run.owner, position);
      assert Marked(m, run.owner, position);
    }
    forall row | row in m
      ensures !Marks(row, run.owner, 2 * run.start - 1) && !Marks(row, run.owner, 2 * run.end + 1)
    {
      assert row == run || Apart(row, run);
    }
  }

  lemma RunEndpoints(rows: set<MemoryRange>, run: MemoryRange)
    requires IsRun(rows, run)
    ensures run in Normalized(rows)
  {
    assert Marked(rows, run.owner, 2 * run.start) && Marked(rows, run.owner, 2 * run.end);
    var a :| a in rows && Marks(a, run.owner, 2 * run.start);
    var b :| b in rows && Marks(b, run.owner, 2 * run.end);
    assert !Marks(a, run.owner, 2 * run.start - 1) && !Marks(b, run.owner, 2 * run.end + 1);
    assert a.start == run.start && b.end == run.end;
  }

  lemma HullMarks(m: set<MemoryRange>, other: MemoryRange, row: MemoryRange, hull: MemoryRange, owner: Owner, p: int)
    requires other in m && other.owner == row.owner == hull.owner
    requires !Apart(other, row) && other.start <= other.end && row.start <= row.end
    requires hull.start == (if other.start < row.start then other.start else row.start)
    requires hull.end == (if other.end > row.end then other.end else row.end)
    ensures Marked((m - {other}) + {hull}, owner, p) <==> Marked(m + {row}, owner, p)
  {
    MarkedInsert(m - {other}, hull, owner, p);
    MarkedInsert(m - {other}, other, owner, p);
    MarkedInsert(m, row, owner, p);
    assert m == (m - {other}) + {other};
    assert Marks(hull, owner, p) <==> Marks(other, owner, p) || Marks(row, owner, p);
  }

  /** Absorbing a range into a separated set keeps the set separated. */
  lemma {:induction false} Absorb(m: set<MemoryRange>, row: MemoryRange) returns (grown: set<MemoryRange>)
    requires Ordered(m) && Separated(m) && row.start <= row.end
    ensures Ordered(grown) && Separated(grown) && SameMarks(grown, m + {row})
    decreases |m|
  {
    if other :| other in m && !Apart(other, row) {
      var hull := MemoryRange(row.owner,
                              if other.start < row.start then other.start else row.start,
                              if other.end > row.end then other.end else row.end);
      grown := Absorb(m - {other}, hull);
      forall owner, p ensures Marked((m - {other}) + {hull}, owner, p) <==> Marked(m + {row}, owner, p) {
        HullMarks(m, other, row, hull, owner, p);
      }
    } else {
      grown := m + {row};
    }
  }

  lemma {:induction false} NormalFormExists(rows: set<MemoryRange>) returns (m: set<MemoryRange>)
    requires Ordered(rows)
    ensures Ordered(m) && Separated(m) && SameMarks(rows, m)
  {
    if rows == {} {
      m := {};
    } else {
      var row :| row in rows;
      var rest := rows - {row};
      var before := NormalFormExists(rest);
      m := Absorb(before, row);
      assert rows == rest + {row};
      forall owner, position ensures Marked(rows, owner, position) <==> Marked(m, owner, position) {
        assert Marked(m, owner, position) <==> Marked(before + {row}, owner, position);
        assert Marked(rest, owner, position) <==> Marked(before, owner, position);
      }
    }
  }

  /** The normal form is sorted with strict gaps and marks exactly what its input marked. */
  lemma NormalizedSound(rows: set<MemoryRange>)
    requires Ordered(rows)
    ensures Ordered(Normalized(rows)) && Separated(Normalized(rows)) && SameMarks(rows, Normalized(rows))
  {
    var m := NormalFormExists(rows);
    NormalFormUnique(rows, m);
  }

  lemma OverlapMeansMark(row: MemoryRange, key: MemoryKey)
    requires key.width >= 1 && row.start <= row.end
    ensures Overlaps(row, key)
        <==> exists p :: 2 * key.offset < p < 2 * (key.offset + key.width) && Marks(row, key.owner, p)
  {
    if Overlaps(row, key) {
      var p := if 2 * row.start > 2 * key.offset + 1 then 2 * row.start else 2 * key.offset + 1;
      assert Marks(row, key.owner, p);
    }
  }

  lemma HitMeansMark(rows: set<MemoryRange>, key: MemoryKey)
    requires key.width >= 1 && Ordered(rows)
    ensures Hit(rows, key)
        <==> exists p :: 2 * key.offset < p < 2 * (key.offset + key.width) && Marked(rows, key.owner, p)
  {
    if Hit(rows, key) {
      var row :| row in rows && Overlaps(row, key);
      OverlapMeansMark(row, key);
      var p :| 2 * key.offset < p < 2 * (key.offset + key.width) && Marks(row, key.owner, p);
      assert Marked(rows, key.owner, p);
    }
    if p :| 2 * key.offset < p < 2 * (key.offset + key.width) && Marked(rows, key.owner, p) {
      var row :| row in rows && Marks(row, key.owner, p);
      OverlapMeansMark(row, key);
    }
  }

  /** Normalising neither invalidates nor revives a key. */
  lemma NormalizedHitsExactly(rows: set<MemoryRange>, key: MemoryKey)
    requires key.width >= 1 && Ordered(rows)
    ensures Hit(Normalized(rows), key) <==> Hit(rows, key)
  {
    NormalizedSound(rows);
    HitMeansMark(rows, key);
    HitMeansMark(Normalized(rows), key);
  }

  /** A zero-width key would be hit by the merge of two ranges that meet at it, and by neither of them. */
  lemma ZeroWidthKeysAreNotExact(owner: Owner)
    ensures var rows := {MemoryRange(owner, 1, 3), MemoryRange(owner, 3, 5)};
            var key := MemoryKey(owner, 3, 0);
            Ordered(rows) && !Hit(rows, key) && Hit(Normalized(rows), key)
  {
    var rows, merged := {MemoryRange(owner, 1, 3), MemoryRange(owner, 3, 5)}, {MemoryRange(owner, 1, 5)};
    forall o, p ensures Marked(rows, o, p) <==> Marked(merged, o, p) {
      assert Marks(MemoryRange(owner, 1, 5), o, p)
        <==> Marks(MemoryRange(owner, 1, 3), o, p) || Marks(MemoryRange(owner, 3, 5), o, p);
      assert MemoryRange(owner, 1, 3) in rows && MemoryRange(owner, 3, 5) in rows && MemoryRange(owner, 1, 5) in merged;
    }
    NormalFormUnique(rows, merged);
    assert Overlaps(MemoryRange(owner, 1, 5), MemoryKey(owner, 3, 0));
  }

  /** Bytes before and at the position of a zero-width key, covered by different ranges only. */
  ghost predicate Bridged(rows: set<MemoryRange>, owner: Owner, offset: int) {
    && CoversByte(rows, owner, offset - 1) && CoversByte(rows, owner, offset)
    && forall row | row in rows :: !(Contains(row, owner, offset - 1) && Contains(row, owner, offset))
  }

  lemma ByteMark(rows: set<MemoryRange>, owner: Owner, byte: int)
    ensures CoversByte(rows, owner, byte) <==> Marked(rows, owner, 2 * byte + 1)
  {
    if CoversByte(rows, owner, byte) {
      var row :| row in rows && Contains(row, owner, byte);
      assert Marks(row, owner, 2 * byte + 1);
    }
    if Marked(rows, owner, 2 * byte + 1) {
      var row :| row in rows && Marks(row, owner, 2 * byte + 1);
      assert Contains(row, owner, byte);
    }
  }

  /** A range overlaps a zero-width key when it contains the bytes on both sides of it. */
  lemma SpanOverlaps(row: MemoryRange, key: MemoryKey)
    requires key.width == 0
    ensures Overlaps(row, key) <==> Contains(row, key.owner, key.offset - 1) && Contains(row, key.owner, key.offset)
  {
  }

  /** In a separated set the ranges on both sides of a position are one range. */
  lemma SeparatedSpan(rows: set<MemoryRange>, key: MemoryKey)
    requires key.width == 0 && Separated(rows)
    ensures Hit(rows, key) <==> CoversByte(rows, key.owner, key.offset - 1) && CoversByte(rows, key.owner, key.offset)
  {
    if Hit(rows, key) {
      var row :| row in rows && Overlaps(row, key);
      SpanOverlaps(row, key);
    }
    if CoversByte(rows, key.owner, key.offset - 1) && CoversByte(rows, key.owner, key.offset) {
      var a :| a in rows && Contains(a, key.owner, key.offset - 1);
      var b :| b in rows && Contains(b, key.owner, key.offset);
      assert a != b ==> Apart(a, b);
      assert Overlaps(a, key);
    }
  }

  lemma NormalizedSpan(rows: set<MemoryRange>, key: MemoryKey)
    requires key.width == 0 && Ordered(rows)
    ensures Hit(Normalized(rows), key)
        <==> CoversByte(rows, key.owner, key.offset - 1) && CoversByte(rows, key.owner, key.offset)
  {
    NormalizedSound(rows);
    SameBytes(rows, Normalized(rows), key.owner, key.offset - 1);
    SameBytes(rows, Normalized(rows), key.owner, key.offset);
    SeparatedSpan(Normalized(rows), key);
  }

  lemma InputSpan(rows: set<MemoryRange>, key: MemoryKey)
    requires key.width == 0
    ensures Bridged(rows, key.owner, key.offset)
        <==> CoversByte(rows, key.owner, key.offset - 1) && CoversByte(rows, key.owner, key.offset) && !Hit(rows, key)
    ensures Hit(rows, key) ==> CoversByte(rows, key.owner, key.offset - 1) && CoversByte(rows, key.owner, key.offset)
  {
    if Hit(rows, key) {
      var row :| row in rows && Overlaps(row, key);
      SpanOverlaps(row, key);
    } else {
      forall row | row in rows ensures !(Contains(row, key.owner, key.offset - 1) && Contains(row, key.owner, key.offset)) {
        SpanOverlaps(row, key);
      }
    }
  }

  /** Merging judges a zero-width key as the input did, if and only if no two ranges meet at it without one of them
      spanning it. */
  lemma ZeroWidthHitsExactly(rows: set<MemoryRange>, key: MemoryKey)
    requires key.width == 0 && Ordered(rows)
    ensures (Hit(Normalized(rows), key) <==> Hit(rows, key)) <==> !Bridged(rows, key.owner, key.offset)
  {
    NormalizedSpan(rows, key);
    InputSpan(rows, key);
  }

  lemma SameBytes(a: set<MemoryRange>, b: set<MemoryRange>, owner: Owner, byte: int)
    requires SameMarks(a, b)
    ensures CoversByte(a, owner, byte) <==> CoversByte(b, owner, byte)
  {
    ByteMark(a, owner, byte);
    ByteMark(b, owner, byte);
  }

  /** The normal form depends only on what is marked, so it is canonical and idempotent. */
  lemma NormalizedCanonical(a: set<MemoryRange>, b: set<MemoryRange>)
    requires Ordered(a) && Ordered(b)
    ensures Normalized(a) == Normalized(b) <==> SameMarks(a, b)
    ensures Normalized(Normalized(a)) == Normalized(a)
  {
    NormalizedSound(a);
    NormalizedSound(b);
    NormalFormUnique(Normalized(a), Normalized(a));
    if SameMarks(a, b) {
      NormalFormUnique(b, Normalized(a));
    }
  }

  predicate NonEmpty(rows: set<MemoryRange>) { forall row | row in rows :: row.start < row.end }

  /** Nonempty ranges covering the same bytes have the same normal form. */
  lemma NormalizedByBytes(a: set<MemoryRange>, b: set<MemoryRange>)
    requires NonEmpty(a) && NonEmpty(b)
    requires forall owner, byte :: CoversByte(a, owner, byte) <==> CoversByte(b, owner, byte)
    ensures Normalized(a) == Normalized(b)
  {
    forall owner, position ensures Marked(a, owner, position) <==> Marked(b, owner, position) {
      MarkIsByte(a, owner, position);
      MarkIsByte(b, owner, position);
    }
    NormalizedCanonical(a, b);
  }

  lemma MarkIsByte(rows: set<MemoryRange>, owner: Owner, position: int)
    requires NonEmpty(rows)
    ensures Marked(rows, owner, position)
        <==> CoversByte(rows, owner, position / 2) || (position % 2 == 0 && CoversByte(rows, owner, position / 2 - 1))
  {
    forall row | row in rows
      ensures Marks(row, owner, position)
          <==> Contains(row, owner, position / 2) || (position % 2 == 0 && Contains(row, owner, position / 2 - 1))
    {
    }
    if CoversByte(rows, owner, position / 2) {
      var row :| row in rows && Contains(row, owner, position / 2);
      assert Marks(row, owner, position);
    }
    if position % 2 == 0 && CoversByte(rows, owner, position / 2 - 1) {
      var row :| row in rows && Contains(row, owner, position / 2 - 1);
      assert Marks(row, owner, position);
    }
  }

  // ----- the merge loop

  predicate SortedByStart(rows: seq<MemoryRange>) {
    forall i, j | 0 <= i < j < |rows| :: rows[i].start <= rows[j].start
  }

  ghost function Elements<T>(s: seq<T>): set<T> { set x | x in s }

  method SortByStart(rows: set<MemoryRange>) returns (sorted: seq<MemoryRange>)
    ensures SortedByStart(sorted) && Elements(sorted) == rows
  {
    sorted := [];
    var todo := rows;
    while todo != {}
      invariant SortedByStart(sorted)
      invariant todo <= rows && Elements(sorted) == rows - todo
    {
      var row :| row in todo;
      sorted := InsertByStart(sorted, row);
      todo := todo - {row};
    }
  }

  method InsertByStart(sorted: seq<MemoryRange>, row: MemoryRange) returns (grown: seq<MemoryRange>)
    requires SortedByStart(sorted)
    ensures SortedByStart(grown) && Elements(grown) == Elements(sorted) + {row}
  {
    var at := 0;
    while at < |sorted| && sorted[at].start <= row.start
      invariant at <= |sorted|
      invariant forall i | 0 <= i < at :: sorted[i].start <= row.start
    {
      at := at + 1;
    }
    grown := sorted[..at] + [row] + sorted[at..];
    InsertedElements(sorted, at, row);
    assert forall i | 0 <= i < |grown| ::
        grown[i] == if i < at then sorted[i] else if i == at then row else sorted[i - 1];
  }

  lemma InsertedElements(sorted: seq<MemoryRange>, at: nat, row: MemoryRange)
    requires at <= |sorted|
    ensures Elements(sorted[..at] + [row] + sorted[at..]) == Elements(sorted) + {row}
  {
    assert sorted == sorted[..at] + sorted[at..];
  }

  /** Merges the sorted ranges of one owner. */
  method MergeSorted(owner: Owner, rows: seq<MemoryRange>) returns (merged: set<MemoryRange>)
    requires SortedByStart(rows)
    requires forall row | row in rows :: row.owner == owner && row.start <= row.end
    ensures Ordered(merged) && Separated(merged) && SameMarks(merged, Elements(rows))
    ensures forall row | row in merged :: row.owner == owner
  {
    merged := {};
    var current: Option<MemoryRange> := None;
    for i := 0 to |rows|
      invariant Ordered(merged) && Separated(merged)
      invariant forall row | row in merged :: row.owner == owner
      invariant current.None? <==> i == 0
      invariant current.None? ==> merged == {}
      invariant current.Some? ==>
                  && current.value.owner == owner && current.value.start <= current.value.end
                  && current.value.start <= rows[i - 1].start
                  && forall row | row in merged :: row.end < current.value.start
      invariant forall o, p :: Marked(Elements(rows[..i]), o, p)
                          <==> Marked(merged, o, p) || (current.Some? && Marks(current.value, o, p))
    {
      var row := rows[i];
      ghost var earlier, marked, last := Elements(rows[..i]), merged, current;
      match current
      case None =>
        current := Some(row);
      case Some(c) =>
        if row.start <= c.end {
          current := Some(MemoryRange(owner, c.start, if row.end > c.end then row.end else c.end));
        } else {
          merged := merged + {c};
          current := Some(row);
        }
      assert rows[..i + 1] == rows[..i] + [row];
      assert Elements(rows[..i + 1]) == earlier + {row};
      MergeStep(earlier, row, marked, last, merged, current);
    }
    assert rows[..|rows|] == rows;
    if current.Some? {
      MergeEnd(Elements(rows), merged, current.value);
      merged := merged + {current.value};
    }
  }

  lemma MergeStep(earlier: set<MemoryRange>, row: MemoryRange, marked: set<MemoryRange>, last: Option<MemoryRange>,
                  merged: set<MemoryRange>, current: Option<MemoryRange>)
    requires forall o, p :: Marked(earlier, o, p) <==> Marked(marked, o, p) || (last.Some? && Marks(last.value, o, p))
    requires current.Some? && row.start <= row.end
    requires last.None? ==> current.value == row && merged == marked
    requires last.Some? ==>
               && last.value.owner == row.owner && last.value.start <= last.value.end && last.value.start <= row.start
               && if row.start <= last.value.end
                  then merged == marked && current.value == MemoryRange(row.owner, last.value.start,
                         if row.end > last.value.end then row.end else last.value.end)
                  else merged == marked + {last.value} && current.value == row
    ensures forall o, p :: Marked(earlier + {row}, o, p) <==> Marked(merged, o, p) || Marks(current.value, o, p)
  {
    forall o, p ensures Marked(earlier + {row}, o, p) <==> Marked(merged, o, p) || Marks(current.value, o, p) {
      MarkedInsert(earlier, row, o, p);
      if last.Some? && row.start > last.value.end {
        MarkedInsert(marked, last.value, o, p);
      }
    }
  }

  lemma MarkedInsert(rows: set<MemoryRange>, row: MemoryRange, owner: Owner, position: int)
    ensures Marked(rows + {row}, owner, position) <==> Marked(rows, owner, position) || Marks(row, owner, position)
  {
    assert row in rows + {row};
  }

  lemma MergeEnd(rows: set<MemoryRange>, merged: set<MemoryRange>, last: MemoryRange)
    requires forall o, p :: Marked(rows, o, p) <==> Marked(merged, o, p) || Marks(last, o, p)
    ensures SameMarks(merged + {last}, rows)
  {
    forall o, p ensures Marked(merged + {last}, o, p) <==> Marked(rows, o, p) {
      MarkedInsert(merged, last, o, p);
    }
  }

  /** normalize_ranges: groups by owner, sorts, merges; an inverted range is an error. */
  method NormalizeRanges(rows: set<MemoryRange>) returns (result: Option<set<MemoryRange>>)
    ensures result.Some? <==> Ordered(rows)
    ensures result.Some? ==> result.value == Normalized(rows)
  {
    var grouped: map<Owner, set<MemoryRange>> := map[];
    var todo := rows;
    while todo != {}
      invariant todo <= rows && Ordered(rows - todo)
      invariant forall owner | owner in grouped :: grouped[owner] == (set row | row in rows - todo && row.owner == owner)
      invariant forall row | row in rows - todo :: row.owner in grouped
    {
      var row :| row in todo;
      if row.end < row.start { return None; }
      var group := if row.owner in grouped then grouped[row.owner] else {};
      grouped := grouped[row.owner := group + {row}];
      todo := todo - {row};
    }
    var merged: set<MemoryRange> := {};
    var owners := grouped.Keys;
    while owners != {}
      invariant owners <= grouped.Keys
      invariant Ordered(merged) && Separated(merged)
      invariant forall row | row in merged :: row.owner in grouped.Keys - owners
      invariant forall o, p :: o !in owners ==> (Marked(merged, o, p) <==> Marked(rows, o, p))
    {
      var owner :| owner in owners;
      var sorted := SortByStart(grouped[owner]);
      assert forall row | row in sorted :: row in Elements(sorted);
      var part := MergeSorted(owner, sorted);
      ghost var before := merged;
      merged := merged + part;
      owners := owners - {owner};
      forall o, p | o !in owners ensures Marked(merged, o, p) <==> Marked(rows, o, p) {
        if o == owner {
          assert Marked(merged, o, p) <==> Marked(part, o, p);
          assert Marked(part, o, p) <==> Marked(grouped[owner], o, p);
          assert Marked(grouped[owner], o, p) <==> Marked(rows, o, p);
        } else {
          assert Marked(merged, o, p) <==> Marked(before, o, p);
        }
      }
    }
    forall o, p ensures Marked(rows, o, p) <==> Marked(merged, o, p) { }
    NormalFormUnique(rows, merged);
    return Some(merged);
  }
}
