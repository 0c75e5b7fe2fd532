/** Compact fact rows: interned values, a canonical catalog, and index lists as hex text of delta-coded
    unsigned LEB128 numbers (section 7.6 of DWARF version 5). */
module FactEncoding {
  import opened Identities
  import opened Hex

  // ----- strictly ascending sequences

  ghost predicate StrictOrder<T(!new)>(less: (T, T) -> bool) {
    && (forall x :: !less(x, x))
    && (forall x, y :: less(x, y) || less(y, x) || x == y)
    && (forall x, y, z | less(x, y) && less(y, z) :: less(x, z))
  }

  predicate Ascending<T>(s: seq<T>, less: (T, T) -> bool) {
    forall i, j | 0 <= i < j < |s| :: less(s[i], s[j])
  }

  predicate Distinct<T(==)>(s: seq<T>) { forall i, j | 0 <= i < j < |s| :: s[i] != s[j] }

  ghost predicate SameElements<T(!new)>(a: seq<T>, b: seq<T>) { forall x :: x in a <==> x in b }

  lemma TailAscending<T(!new)>(s: seq<T>, less: (T, T) -> bool)
    requires StrictOrder(less) && Ascending(s, less) && s != []
    ensures Ascending(s[1..], less) && s[0] !in s[1..]
  {
  }

  /** A set has one ascending listing. */
  lemma {:induction false} AscendingUnique<T(!new)>(a: seq<T>, b: seq<T>, less: (T, T) -> bool)
    requires StrictOrder(less) && Ascending(a, less) && Ascending(b, less) && SameElements(a, b)
    ensures a == b
  {
    if a != [] { assert a[0] in b; }
    if b != [] { assert b[0] in a; }
    if a != [] && b != [] {
      assert a[0] == b[0] by {
        assert a[0] in b && b[0] in a;
        assert forall i | 0 < i < |a| :: less(a[0], a[i]);
        assert forall i | 0 < i < |b| :: less(b[0], b[i]);
      }
      TailAscending(a, less);
      TailAscending(b, less);
      assert a == [a[0]] + a[1..] && b == [b[0]] + b[1..];
      forall x ensures x in a[1..] <==> x in b[1..] {
        assert x in a <==> x == a[0] || x in a[1..];
        assert x in b <==> x == b[0] || x in b[1..];
      }
      AscendingUnique(a[1..], b[1..], less);
    }
  }

  // ----- interning

  class Interner<T(==)> {
    var index: map<T, nat>
    var rows: seq<T>

    ghost predicate Valid()
      reads this
    {
      && (forall i | 0 <= i < |rows| :: rows[i] in index && index[rows[i]] == i)
      && (forall x | x in index :: index[x] < |rows| && rows[index[x]] == x)
    }

    constructor ()
      ensures Valid() && rows == []
    {
      index, rows := map[], [];
    }

    method Intern(value: T) returns (row: nat)
      requires Valid()
      modifies this
      ensures Valid() && row < |rows| && rows[row] == value
      ensures rows == if value in old(rows) then old(rows) else old(rows) + [value]
    {
      if value in index { return index[value]; }
      row := |rows|;
      rows := rows + [value];
      index := index[value := row];
    }
  }

  // ----- the canonical catalog

  /** Library sort of rows that carry their old position. */
  function InsertRow<T>(sorted: seq<(nat, T)>, row: (nat, T), less: (T, T) -> bool): seq<(nat, T)> {
    if sorted == [] || less(row.1, sorted[0].1) then [row] + sorted
    else [sorted[0]] + InsertRow(sorted[1..], row, less)
  }

  function SortRows<T>(rows: seq<T>, less: (T, T) -> bool): seq<(nat, T)> {
    if rows == [] then [] else InsertRow(SortRows(rows[..|rows| - 1], less), (|rows| - 1, rows[|rows| - 1]), less)
  }

  ghost predicate RowsAscending<T>(s: seq<(nat, T)>, less: (T, T) -> bool) {
    forall i, j | 0 <= i < j < |s| :: less(s[i].1, s[j].1)
  }

  lemma {:induction false} InsertRowHolds<T>(sorted: seq<(nat, T)>, row: (nat, T), less: (T, T) -> bool, x: (nat, T))
    ensures x in InsertRow(sorted, row, less) <==> x == row || x in sorted
  {
    if sorted != [] && !less(row.1, sorted[0].1) {
      assert sorted == [sorted[0]] + sorted[1..];
      InsertRowHolds(sorted[1..], row, less, x);
    }
  }

  lemma {:induction false} InsertRowSorted<T(!new)>(sorted: seq<(nat, T)>, row: (nat, T), less: (T, T) -> bool)
    requires StrictOrder(less) && RowsAscending(sorted, less)
    requires forall i | 0 <= i < |sorted| :: sorted[i].1 != row.1
    ensures RowsAscending(InsertRow(sorted, row, less), less)
    ensures |InsertRow(sorted, row, less)| == |sorted| + 1
  {
    if sorted != [] && !less(row.1, sorted[0].1) {
      InsertRowSorted(sorted[1..], row, less);
      var rest := InsertRow(sorted[1..], row, less);
      assert less(sorted[0].1, row.1);
      forall j | 0 <= j < |rest| ensures less(sorted[0].1, rest[j].1) {
        InsertRowHolds(sorted[1..], row, less, rest[j]);
        assert rest[j] in rest;
      }
    }
  }

  lemma {:induction false} SortRowsHold<T>(rows: seq<T>, less: (T, T) -> bool, x: (nat, T))
    ensures x in SortRows(rows, less) <==> x.0 < |rows| && x.1 == rows[x.0]
  {
    if rows != [] {
      var n := |rows| - 1;
      SortRowsHold(rows[..n], less, x);
      InsertRowHolds(SortRows(rows[..n], less), (n, rows[n]), less, x);
    }
  }

  lemma {:induction false} SortRowsSorted<T(!new)>(rows: seq<T>, less: (T, T) -> bool)
    requires StrictOrder(less) && Distinct(rows)
    ensures RowsAscending(SortRows(rows, less), less) && |SortRows(rows, less)| == |rows|
  {
    if rows != [] {
      var n := |rows| - 1;
      var rest := SortRows(rows[..n], less);
      SortRowsSorted(rows[..n], less);
      forall i | 0 <= i < |rest| ensures rest[i].1 != rows[n] {
        SortRowsHold(rows[..n], less, rest[i]);
        assert rest[i] in rest;
      }
      InsertRowSorted(rest, (n, rows[n]), less);
    }
  }

  /** The rows in their own order, and where each old row went. */
  ghost predicate IsCatalog<T>(rows: seq<T>, less: (T, T) -> bool, canonical: seq<T>, remap: seq<nat>) {
    && |canonical| == |remap| == |rows| && Ascending(canonical, less)
    && forall i | 0 <= i < |rows| :: remap[i] < |canonical| && canonical[remap[i]] == rows[i]
  }

  method CanonicalCatalog<T(0, !new)>(rows: seq<T>, less: (T, T) -> bool) returns (canonical: seq<T>, remap: seq<nat>)
    requires StrictOrder(less) && Distinct(rows)
    ensures IsCatalog(rows, less, canonical, remap)
    ensures forall x :: x in canonical <==> x in rows
  {
    var sorted := SortRows(rows, less);
    SortRowsSorted(rows, less);
    forall x: (nat, T) ensures x in sorted <==> x.0 < |rows| && x.1 == rows[x.0] { SortRowsHold(rows, less, x); }
    remap := seq(|rows|, i => 0);
    canonical := [];
    for k := 0 to |sorted|
      invariant |remap| == |rows| && |canonical| == k
      invariant forall j | 0 <= j < k :: canonical[j] == sorted[j].1
      invariant forall j | 0 <= j < k :: sorted[j] in sorted && remap[sorted[j].0] == j
    {
      assert sorted[k] in sorted;
      forall j | 0 <= j < k ensures sorted[j].0 != sorted[k].0 { assert sorted[j] in sorted && less(sorted[j].1, sorted[k].1); }
      remap := remap[sorted[k].0 := k];
      canonical := canonical + [sorted[k].1];
    }
    forall i | 0 <= i < |rows| ensures remap[i] < |canonical| && canonical[remap[i]] == rows[i] {
      assert (i, rows[i]) in sorted;
      var j :| 0 <= j < |sorted| && sorted[j] == (i, rows[i]);
    }
    forall x ensures x in canonical <==> x in rows {
      if x in canonical {
        var j :| 0 <= j < |canonical| && canonical[j] == x;
        assert sorted[j] in sorted;
      }
    }
  }

  /** The catalog does not depend on the order in which values were interned. */
  lemma CatalogUnique<T(!new)>(rows: seq<T>, rows': seq<T>, less: (T, T) -> bool, canonical: seq<T>, remap: seq<nat>,
                               canonical': seq<T>, remap': seq<nat>)
    requires StrictOrder(less) && SameElements(rows, rows')
    requires IsCatalog(rows, less, canonical, remap) && SameElements(canonical, rows)
    requires IsCatalog(rows', less, canonical', remap') && SameElements(canonical', rows')
    ensures canonical == canonical'
  {
    AscendingUnique(canonical, canonical', less);
  }

  // ----- numbers and bytes

  type Byte = b: nat | b < 256 witness 0

  /** Unsigned LEB128 */
  function Varint(n: nat): seq<Byte> {
    if n < 128 then [n] else [n % 128 + 128] + Varint(n / 128)
  }

  /** Reads one unsigned LEB128 number off the front. */
  function TakeVarint(bytes: seq<Byte>): (r: Option<(nat, seq<Byte>)>)
    ensures r.Some? ==> |r.value.1| < |bytes|
  {
    if bytes == [] then None
    else if bytes[0] < 128 then Some((bytes[0], bytes[1..]))
    else match TakeVarint(bytes[1..])
      case None => None
      case Some((high, rest)) => Some((bytes[0] - 128 + 128 * high, rest))
  }

  lemma {:induction false} VarintRoundTrip(n: nat, rest: seq<Byte>)
    ensures TakeVarint(Varint(n) + rest) == Some((n, rest))
  {
    var all := Varint(n) + rest;
    if n < 128 {
      assert all[1..] == rest;
    } else {
      VarintRoundTrip(n / 128, rest);
      assert all[1..] == Varint(n / 128) + rest;
    }
  }

  /** No other byte sequence that reads as the number is as short. */
  lemma {:induction false} VarintShortest(n: nat, bytes: seq<Byte>)
    requires TakeVarint(bytes) == Some((n, []))
    ensures |Varint(n)| <= |bytes| && (|Varint(n)| == |bytes| ==> Varint(n) == bytes)
  {
    if bytes[0] < 128 {
      assert bytes == [bytes[0]] + bytes[1..];
    } else {
      var high := TakeVarint(bytes[1..]).value.0;
      VarintShortest(high, bytes[1..]);
      assert bytes == [bytes[0]] + bytes[1..];
      if n >= 128 { assert n % 128 == bytes[0] - 128 && n / 128 == high; }
    }
  }

  /** Differences of an ascending list, each as a varint. */
  function Deltas(indices: seq<nat>, previous: nat): seq<Byte> {
    if indices == [] then []
    else Varint(Difference(indices[0], previous)) + Deltas(indices[1..], indices[0])
  }

  function Difference(next: nat, previous: nat): nat { if next >= previous then next - previous else 0 }

  function LastOr(indices: seq<nat>, otherwise: nat): nat { if indices == [] then otherwise else indices[|indices| - 1] }

  function Undelta(bytes: seq<Byte>, previous: nat): Option<seq<nat>>
    decreases |bytes|
  {
    if bytes == [] then Some([])
    else match TakeVarint(bytes)
      case None => None
      case Some((delta, rest)) =>
        match Undelta(rest, previous + delta)
        case None => None
        case Some(more) => Some([previous + delta] + more)
  }

  predicate Increasing(s: seq<nat>) { forall i, j | 0 <= i < j < |s| :: s[i] < s[j] }

  lemma IncreasingTail(indices: seq<nat>)
    requires Increasing(indices) && indices != []
    ensures Increasing(indices[1..]) && (indices[1..] != [] ==> indices[0] <= indices[1..][0])
  {
  }

  lemma UndeltaStep(delta: nat, rest: seq<Byte>, previous: nat)
    requires TakeVarint(Varint(delta) + rest) == Some((delta, rest)) && Undelta(rest, previous + delta).Some?
    ensures Undelta(Varint(delta) + rest, previous) == Some([previous + delta] + Undelta(rest, previous + delta).value)
  {
    assert Varint(delta) + rest != [];
  }

  lemma {:induction false} DeltasRoundTrip(indices: seq<nat>, previous: nat)
    requires Increasing(indices) && (indices != [] ==> previous <= indices[0])
    ensures Undelta(Deltas(indices, previous), previous) == Some(indices)
  {
    if indices != [] {
      var delta, rest := indices[0] - previous, Deltas(indices[1..], indices[0]);
      IncreasingTail(indices);
      DeltasRoundTrip(indices[1..], indices[0]);
      VarintRoundTrip(delta, rest);
      assert Deltas(indices, previous) == Varint(delta) + rest;
      UndeltaStep(delta, rest, previous);
      assert indices == [previous + delta] + indices[1..];
    }
  }

  lemma {:induction false} DeltasSnoc(indices: seq<nat>, previous: nat, next: nat)
    ensures Deltas(indices + [next], previous)
         == Deltas(indices, previous) + Varint(Difference(next, LastOr(indices, previous)))
  {
    var all := indices + [next];
    if indices == [] {
      assert all[1..] == [];
    } else {
      assert all[1..] == indices[1..] + [next];
      DeltasSnoc(indices[1..], indices[0], next);
    }
  }

  // ----- hex text

  function HexByte(b: Byte): string { [HexDigit(b / 16), HexDigit(b % 16)] }

  function HexText(bytes: seq<Byte>): string { if bytes == [] then "" else HexByte(bytes[0]) + HexText(bytes[1..]) }

  function Unhex(text: string): Option<seq<Byte>> {
    if text == "" then Some([])
    else if |text| == 1 then None
    else match (HexValue(text[0]), HexValue(text[1]), Unhex(text[2..]))
      case (Some(high), Some(low), Some(rest)) => if high * 16 + low < 256 then Some([high * 16 + low] + rest) else None
      case _ => None
  }

  lemma {:induction false} HexRoundTrip(bytes: seq<Byte>)
    ensures Unhex(HexText(bytes)) == Some(bytes)
  {
    if bytes != [] {
      HexRoundTrip(bytes[1..]);
      HexStep(bytes[0], HexText(bytes[1..]), bytes[1..]);
      assert bytes == [bytes[0]] + bytes[1..];
    }
  }

  lemma HexStep(b: Byte, text: string, rest: seq<Byte>)
    requires Unhex(text) == Some(rest)
    ensures Unhex(HexByte(b) + text) == Some([b] + rest)
  {
    HexDigitValue(b / 16);
    HexDigitValue(b % 16);
    UnhexFront(HexDigit(b / 16), HexDigit(b % 16), b / 16, b % 16, text, rest);
  }

  lemma UnhexFront(first: char, second: char, high: nat, low: nat, text: string, rest: seq<Byte>)
    requires HexValue(first) == Some(high) && HexValue(second) == Some(low) && high * 16 + low < 256
    requires Unhex(text) == Some(rest)
    ensures Unhex([first, second] + text) == Some([high * 16 + low] + rest)
  {
    assert ([first, second] + text)[2..] == text;
  }

  lemma {:induction false} HexAppend(a: seq<Byte>, b: seq<Byte>)
    ensures HexText(a + b) == HexText(a) + HexText(b)
  {
    if a == [] {
      assert a + b == b;
    } else {
      HexAppend(a[1..], b);
      assert (a + b)[1..] == a[1..] + b;
      Reassociated(HexByte(a[0]), HexText(a[1..]), HexText(b));
    }
  }

  lemma Reassociated(a: string, b: string, c: string)
    ensures a + (b + c) == a + b + c
  {
  }

  // ----- sorting and removing duplicates

  function InsertIndex(sorted: seq<nat>, x: nat): seq<nat> {
    if sorted == [] || x < sorted[0] then [x] + sorted
    else if x == sorted[0] then sorted
    else [sorted[0]] + InsertIndex(sorted[1..], x)
  }

  /** Library sort followed by dedup. */
  function SortDedup(rows: seq<nat>): seq<nat> {
    if rows == [] then [] else InsertIndex(SortDedup(rows[1..]), rows[0])
  }

  lemma {:induction false} InsertIndexSorted(sorted: seq<nat>, x: nat)
    requires Increasing(sorted)
    ensures Increasing(InsertIndex(sorted, x))
    ensures forall y :: y in InsertIndex(sorted, x) <==> y == x || y in sorted
  {
    if sorted != [] && x > sorted[0] {
      InsertIndexSorted(sorted[1..], x);
      var rest := InsertIndex(sorted[1..], x);
      assert sorted == [sorted[0]] + sorted[1..];
      forall j | 0 <= j < |rest| ensures sorted[0] < rest[j] { assert rest[j] in rest; }
    }
  }

  lemma {:induction false} SortDedupSorted(rows: seq<nat>)
    ensures Increasing(SortDedup(rows))
    ensures forall y :: y in SortDedup(rows) <==> y in rows
  {
    if rows != [] {
      SortDedupSorted(rows[1..]);
      InsertIndexSorted(SortDedup(rows[1..]), rows[0]);
      assert rows == [rows[0]] + rows[1..];
    }
  }

  // ----- the encoder

  function Remapped(rows: seq<nat>, remap: seq<nat>): seq<nat>
    requires forall i | 0 <= i < |rows| :: rows[i] < |remap|
  {
    seq(|rows|, i requires 0 <= i < |rows| => remap[rows[i]])
  }

  function EncodedText(rows: seq<nat>, remap: seq<nat>): string
    requires forall i | 0 <= i < |rows| :: rows[i] < |remap|
  {
    HexText(Deltas(SortDedup(Remapped(rows, remap)), 0))
  }

  /** The byte loop of one delta. */
  method PushVarint(before: seq<Byte>, value: nat) returns (encoded: seq<Byte>)
    ensures encoded == before + Varint(value)
  {
    encoded := before;
    var delta := value;
    while true
      invariant encoded + Varint(delta) == before + Varint(value)
      decreases delta
    {
      var low: nat := delta % 128;
      ghost var was := delta;
      delta := delta / 128;
      if delta == 0 {
        encoded := encoded + [low];
        return;
      }
      assert encoded + Varint(was) == (encoded + [low + 128]) + Varint(delta);
      encoded := encoded + [low + 128];
    }
  }

  /** Two lower-case digits a byte. */
  method PrintHex(encoded: seq<Byte>) returns (text: string)
    ensures text == HexText(encoded)
  {
    text := "";
    for k := 0 to |encoded|
      invariant text == HexText(encoded[..k])
    {
      HexAppend(encoded[..k], [encoded[k]]);
      assert encoded[..k + 1] == encoded[..k] + [encoded[k]];
      assert HexText([encoded[k]]) == HexByte(encoded[k]);
      text := text + HexByte(encoded[k]);
    }
    assert encoded[..|encoded|] == encoded;
  }

  method EncodedReferenceIndices(rows: seq<nat>, remap: seq<nat>) returns (text: string)
    requires forall i | 0 <= i < |rows| :: rows[i] < |remap|
    ensures text == EncodedText(rows, remap)
  {
    var indices := SortDedup(Remapped(rows, remap));
    SortDedupSorted(Remapped(rows, remap));
    var encoded: seq<Byte> := [];
    var previous := 0;
    for position := 0 to |indices|
      invariant encoded == Deltas(indices[..position], 0)
      invariant previous == if position == 0 then 0 else indices[position - 1]
    {
      var index := indices[position];
      assert position > 0 ==> indices[position - 1] < index;
      var delta: nat := index - previous;
      encoded := PushVarint(encoded, delta);
      DeltasSnoc(indices[..position], 0, index);
      assert indices[..position + 1] == indices[..position] + [index];
      previous := index;
    }
    assert indices[..|indices|] == indices;
    text := PrintHex(encoded);
  }

  // ----- decoding through the catalog

  function Decoded<T>(text: string, canonical: seq<T>): Option<set<T>> {
    match DecodedList(text)
    case None => None
    case Some(indices) =>
      if exists i | 0 <= i < |indices| :: indices[i] >= |canonical| then None else Some(Entries(indices, canonical))
  }

  function DecodedList(text: string): Option<seq<nat>> {
    match Unhex(text)
    case None => None
    case Some(bytes) => Undelta(bytes, 0)
  }

  lemma ListRoundTrip(indices: seq<nat>)
    requires Increasing(indices)
    ensures DecodedList(HexText(Deltas(indices, 0))) == Some(indices)
  {
    HexRoundTrip(Deltas(indices, 0));
    DeltasRoundTrip(indices, 0);
  }

  ghost function Named<T>(rows: seq<nat>, values: seq<T>): set<T>
    requires forall i | 0 <= i < |rows| :: rows[i] < |values|
  {
    set i | 0 <= i < |rows| :: values[rows[i]]
  }

  /** Decoding gives back exactly the values the row named when it was interned. */
  lemma EncodingRoundTrip<T(!new)>(rows: seq<nat>, values: seq<T>, less: (T, T) -> bool, canonical: seq<T>, remap: seq<nat>)
    requires IsCatalog(values, less, canonical, remap)
    requires forall i | 0 <= i < |rows| :: rows[i] < |values|
    ensures Decoded(EncodedText(rows, remap), canonical) == Some(Named(rows, values))
  {
    var moved := Remapped(rows, remap);
    var indices := SortDedup(moved);
    SortDedupSorted(moved);
    DecodedIndices(indices, canonical);
    forall i | 0 <= i < |indices| ensures indices[i] < |canonical| && canonical[indices[i]] in Named(rows, values) {
      assert indices[i] in moved;
      var j :| 0 <= j < |moved| && moved[j] == indices[i];
      assert canonical[remap[rows[j]]] == values[rows[j]];
    }
    forall x | x in Named(rows, values) ensures exists i :: 0 <= i < |indices| && canonical[indices[i]] == x {
      var j :| 0 <= j < |rows| && values[rows[j]] == x;
      assert moved[j] in indices;
      var i :| 0 <= i < |indices| && indices[i] == moved[j];
      assert canonical[indices[i]] == x;
    }
    assert Named(rows, values) == Entries(indices, canonical);
  }

  function Entries<T>(indices: seq<nat>, canonical: seq<T>): set<T> {
    set i | 0 <= i < |indices| && indices[i] < |canonical| :: canonical[indices[i]]
  }

  lemma DecodedIndices<T>(indices: seq<nat>, canonical: seq<T>)
    requires Increasing(indices)
    ensures (forall i | 0 <= i < |indices| :: indices[i] < |canonical|)
        ==> Decoded(HexText(Deltas(indices, 0)), canonical) == Some(Entries(indices, canonical))
  {
    ListRoundTrip(indices);
  }

  /** The text depends on the named values only, not on the order in which anything was interned. */
  lemma EncodingOrderFree<T(!new)>(rows: seq<nat>, values: seq<T>, canonical: seq<T>, remap: seq<nat>, rows': seq<nat>,
                                   values': seq<T>, remap': seq<nat>, less: (T, T) -> bool)
    requires StrictOrder(less)
    requires IsCatalog(values, less, canonical, remap) && IsCatalog(values', less, canonical, remap')
    requires forall i | 0 <= i < |rows| :: rows[i] < |values|
    requires forall i | 0 <= i < |rows'| :: rows'[i] < |values'|
    ensures EncodedText(rows, remap) == EncodedText(rows', remap') <==> Named(rows, values) == Named(rows', values')
  {
    EncodingRoundTrip(rows, values, less, canonical, remap);
    EncodingRoundTrip(rows', values', less, canonical, remap');
    if Named(rows, values) == Named(rows', values') {
      var moved, moved' := Remapped(rows, remap), Remapped(rows', remap');
      SortDedupSorted(moved);
      SortDedupSorted(moved');
      forall k: nat | k in moved ensures k in moved' {
        MovedNamed(rows, values, canonical, remap, rows', values', remap', less, k);
      }
      forall k: nat | k in moved' ensures k in moved {
        MovedNamed(rows', values', canonical, remap', rows, values, remap, less, k);
      }
      AscendingUnique(SortDedup(moved), SortDedup(moved'), (x: nat, y: nat) => x < y);
    }
  }

  lemma MovedNamed<T(!new)>(rows: seq<nat>, values: seq<T>, canonical: seq<T>, remap: seq<nat>, rows': seq<nat>,
                            values': seq<T>, remap': seq<nat>, less: (T, T) -> bool, k: nat)
    requires StrictOrder(less)
    requires IsCatalog(values, less, canonical, remap) && IsCatalog(values', less, canonical, remap')
    requires forall i | 0 <= i < |rows| :: rows[i] < |values|
    requires forall i | 0 <= i < |rows'| :: rows'[i] < |values'|
    requires Named(rows, values) <= Named(rows', values') && k in Remapped(rows, remap)
    ensures k in Remapped(rows', remap')
  {
    var i :| 0 <= i < |rows| && remap[rows[i]] == k;
    assert values[rows[i]] in Named(rows', values');
    var j :| 0 <= j < |rows'| && values'[rows'[j]] == values[rows[i]];
    assert canonical[remap'[rows'[j]]] == canonical[k];
    assert Remapped(rows', remap')[j] == remap'[rows'[j]];
    assert !(remap'[rows'[j]] < k) && !(k < remap'[rows'[j]]);
  }
}
