/** What a JSON value means, apart from key order and number spelling, and when its line is the only one. */
module JsonMeaning {
  import opened Identities
  import opened Sequences
  import opened JsonText
  import opened CanonicalJson
  import opened JsonRoundTrip

  /** Objects are maps and numbers are integers. */
  datatype Meant =
    | Nothing
    | Flag(flag: bool)
    | Integer(n: int)
    | Words(s: Text)
    | Items(items: seq<Meant>)
    | Record(fields: map<Text, Meant>)

  function NatOf(digits: string): nat {
    if digits == "" then 0
    else NatOf(digits[..|digits| - 1]) * 10 + DigitValue(digits[|digits| - 1])
  }

  function DigitValue(c: char): nat { if IsDigit(c) then c as nat - '0' as nat else 0 }

  function IntOf(text: string): int {
    if text != "" && text[0] == '-' then -(NatOf(text[1..]) as int) else NatOf(text)
  }

  function Meaning(v: Json): Meant
    decreases v
  {
    match v
    case Null => Nothing
    case Bool(flag) => Flag(flag)
    case Num(text) => Integer(IntOf(text))
    case Str(s) => Words(s)
    case Arr(items) => Items(MeaningItems(items))
    case Obj(entries) => Record(RecordOf(Fields(entries)))
  }

  function MeaningItems(items: seq<Json>): (r: seq<Meant>)
    ensures |r| == |items|
    decreases items
  {
    if items == [] then [] else MeaningItems(items[..|items| - 1]) + [Meaning(items[|items| - 1])]
  }

  lemma {:induction false} MeaningItemsAt(items: seq<Json>, i: nat)
    requires i < |items|
    ensures MeaningItems(items)[i] == Meaning(items[i])
  {
    if i < |items| - 1 { MeaningItemsAt(items[..|items| - 1], i); }
  }

  function Fields(es: seq<Entry>): (r: seq<(Text, Meant)>)
    ensures |r| == |es|
    decreases es
  {
    if es == [] then [] else Fields(es[..|es| - 1]) + [Field(es[|es| - 1])]
  }

  function Field(e: Entry): (Text, Meant)
    decreases e
  {
    (e.key, Meaning(e.value))
  }

  lemma {:induction false} FieldsAt(es: seq<Entry>, i: nat)
    requires i < |es|
    ensures Fields(es)[i] == Field(es[i])
  {
    if i < |es| - 1 { FieldsAt(es[..|es| - 1], i); }
  }

  /** A later field replaces an earlier one of the same key. */
  function RecordOf(fields: seq<(Text, Meant)>): map<Text, Meant> {
    if fields == [] then map[] else RecordOf(fields[..|fields| - 1])[fields[|fields| - 1].0 := fields[|fields| - 1].1]
  }

  predicate FieldsDistinct(fields: seq<(Text, Meant)>) { forall i, j | 0 <= i < j < |fields| :: fields[i].0 != fields[j].0 }

  /** With distinct keys the record is exactly its fields. */
  lemma {:induction false} RecordExactly(fields: seq<(Text, Meant)>, x: (Text, Meant))
    requires FieldsDistinct(fields)
    ensures x in fields <==> x.0 in RecordOf(fields) && RecordOf(fields)[x.0] == x.1
  {
    if fields != [] {
      var rest, last := fields[..|fields| - 1], fields[|fields| - 1];
      RecordExactly(rest, x);
      assert fields == rest + [last];
      if x.0 == last.0 { KeyFresh(rest, last, x); }
    }
  }

  lemma KeyFresh(rest: seq<(Text, Meant)>, last: (Text, Meant), x: (Text, Meant))
    requires FieldsDistinct(rest + [last]) && x.0 == last.0
    ensures x !in rest
  {
    var all := rest + [last];
    forall i | 0 <= i < |rest| ensures rest[i].0 != last.0 { assert all[i].0 != all[|rest|].0; }
  }

  lemma RecordsDecide(a: seq<(Text, Meant)>, b: seq<(Text, Meant)>)
    requires FieldsDistinct(a) && FieldsDistinct(b)
    ensures RecordOf(a) == RecordOf(b) <==> forall x :: x in a <==> x in b
  {
    forall x ensures x in a <==> x.0 in RecordOf(a) && RecordOf(a)[x.0] == x.1 { RecordExactly(a, x); }
    forall x ensures x in b <==> x.0 in RecordOf(b) && RecordOf(b)[x.0] == x.1 { RecordExactly(b, x); }
    if forall x :: x in a <==> x in b {
      var m, n := RecordOf(a), RecordOf(b);
      forall k | k in m ensures k in n && n[k] == m[k] { assert (k, m[k]) in b; }
      forall k | k in n ensures k in m { assert (k, n[k]) in a; }
    }
  }

  // ----- the canonical form keeps the meaning

  lemma {:induction false} CanonMeans(v: Json)
    requires DistinctKeys(v)
    ensures Meaning(Canon(v)) == Meaning(v)
    decreases v
  {
    match v
    case Arr(items) =>
      forall i | 0 <= i < |items| ensures MeaningItems(CanonItems(items))[i] == MeaningItems(items)[i] {
        CanonMeans(items[i]);
        CanonItemsAt(items, i);
        MeaningItemsAt(items, i);
        MeaningItemsAt(CanonItems(items), i);
      }
      assert MeaningItems(CanonItems(items)) == MeaningItems(items);
    case Obj(es) =>
      forall i | 0 <= i < |es| ensures Fields(CanonEntries(es))[i] == Fields(es)[i] {
        CanonMeans(es[i].value);
        CanonEntriesAt(es, i);
        FieldsAt(es, i);
        FieldsAt(CanonEntries(es), i);
      }
      assert Fields(CanonEntries(es)) == Fields(es);
      CanonKeys(es);
      SortMeans(CanonEntries(es));
    case _ =>
  }

  lemma CanonKeys(es: seq<Entry>)
    requires KeysDistinct(es)
    ensures KeysDistinct(CanonEntries(es))
  {
    forall i, j | 0 <= i < j < |es| ensures CanonEntries(es)[i].key != CanonEntries(es)[j].key {
      CanonEntriesAt(es, i);
      CanonEntriesAt(es, j);
    }
  }

  lemma DistinctFields(es: seq<Entry>)
    requires KeysDistinct(es)
    ensures FieldsDistinct(Fields(es))
  {
    forall i, j | 0 <= i < j < |es| ensures Fields(es)[i].0 != Fields(es)[j].0 {
      FieldsAt(es, i);
      FieldsAt(es, j);
    }
  }

  lemma FieldIn(es: seq<Entry>, e: Entry)
    requires e in es
    ensures Field(e) in Fields(es)
  {
    var i :| 0 <= i < |es| && es[i] == e;
    FieldsAt(es, i);
  }

  lemma FieldOf(es: seq<Entry>, x: (Text, Meant)) returns (e: Entry)
    requires x in Fields(es)
    ensures e in es && Field(e) == x
  {
    var i :| 0 <= i < |Fields(es)| && Fields(es)[i] == x;
    FieldsAt(es, i);
    e := es[i];
  }

  /** Sorting distinct keys keeps the record. */
  lemma SortMeans(es: seq<Entry>)
    requires KeysDistinct(es)
    ensures RecordOf(Fields(SortEntries(es))) == RecordOf(Fields(es))
  {
    var sorted := SortEntries(es);
    SortEntriesSorted(es);
    AscendingDistinct(sorted);
    forall x ensures x in Fields(sorted) <==> x in Fields(es) {
      if x in Fields(sorted) {
        var e := FieldOf(sorted, x);
        FieldIn(es, e);
      }
      if x in Fields(es) {
        var e := FieldOf(es, x);
        FieldIn(sorted, e);
      }
    }
    DistinctFields(sorted);
    DistinctFields(es);
    RecordsDecide(Fields(sorted), Fields(es));
  }

  lemma AscendingDistinct(es: seq<Entry>)
    requires KeysAscend(es)
    ensures KeysDistinct(es)
  {
    forall i, j | 0 <= i < j < |es| ensures es[i].key != es[j].key { SeqLessIrreflexive(es[i].key); }
  }

  // ----- the meaning decides the canonical form, but for the sign of zero

  lemma {:induction false} NatPositive(digits: string)
    requires digits != "" && AllDigits(digits) && digits[0] != '0'
    ensures NatOf(digits) > 0
  {
    if |digits| > 1 { NatPositive(digits[..|digits| - 1]); }
  }

  lemma {:induction false} DigitsUnique(a: string, b: string)
    requires AllDigits(a) && AllDigits(b) && (a != "" ==> a[0] != '0') && (b != "" ==> b[0] != '0')
    requires NatOf(a) == NatOf(b)
    ensures a == b
    decreases |a|
  {
    if a == "" || b == "" {
      if a != "" { NatPositive(a); }
      if b != "" { NatPositive(b); }
    } else {
      var x, y := a[..|a| - 1], b[..|b| - 1];
      LastDigit(NatOf(x), DigitValue(a[|a| - 1]), NatOf(y), DigitValue(b[|b| - 1]));
      DigitsUnique(x, y);
      assert a == x + [a[|a| - 1]] && b == y + [b[|b| - 1]];
    }
  }

  lemma LastDigit(x: nat, d: nat, y: nat, e: nat)
    requires d < 10 && e < 10 && x * 10 + d == y * 10 + e
    ensures x == y && d == e
  {
  }

  /** Two literals of one integer are the same text, except "0" and "-0". */
  lemma LiteralUnique(a: string, b: string)
    requires IsLiteral(a) && IsLiteral(b) && IntOf(a) == IntOf(b)
    ensures a == b || (IntOf(a) == 0 && DigitsOf(a) == DigitsOf(b) == "0")
  {
    LiteralValue(a);
    LiteralValue(b);
    if IntOf(a) != 0 {
      DigitsUnique(DigitsOf(a), DigitsOf(b));
      assert a == (if a[0] == '-' then "-" else "") + DigitsOf(a);
      assert b == (if b[0] == '-' then "-" else "") + DigitsOf(b);
    }
  }

  lemma LiteralValue(a: string)
    requires IsLiteral(a)
    ensures IntOf(a) == if a[0] == '-' then -(NatOf(DigitsOf(a)) as int) else NatOf(DigitsOf(a))
    ensures NatOf(DigitsOf(a)) == 0 <==> DigitsOf(a) == "0"
    ensures DigitsOf(a) != "0" ==> DigitsOf(a)[0] != '0'
  {
    if DigitsOf(a)[0] != '0' { NatPositive(DigitsOf(a)); } else { assert DigitsOf(a) == "0"; }
  }

  /** No number is written with a minus sign before a zero. */
  predicate Signless(v: Json) { Numbers(v, text => text != "-0") }

  lemma SignlessUnique(a: string, b: string)
    requires IsLiteral(a) && IsLiteral(b) && IntOf(a) == IntOf(b) && a != "-0" && b != "-0"
    ensures a == b
  {
    LiteralUnique(a, b);
    if DigitsOf(a) == "0" && DigitsOf(b) == "0" {
      assert a == (if a[0] == '-' then "-" else "") + DigitsOf(a);
      assert b == (if b[0] == '-' then "-" else "") + DigitsOf(b);
    }
  }

  predicate Plain(v: Json) { Literals(v) && DistinctKeys(v) && Signless(v) }

  lemma {:induction false} MeaningDecides(v: Json, w: Json)
    requires Plain(v) && Plain(w) && Meaning(v) == Meaning(w)
    ensures Canon(v) == Canon(w)
    decreases v
  {
    match v
    case Num(text) => SignlessUnique(text, w.text);
    case Arr(items) =>
      assert |MeaningItems(items)| == |MeaningItems(w.items)|;
      forall i | 0 <= i < |items| ensures CanonItems(items)[i] == CanonItems(w.items)[i] {
        MeaningItemsAt(items, i);
        MeaningItemsAt(w.items, i);
        MeaningDecides(items[i], w.items[i]);
        CanonItemsAt(items, i);
        CanonItemsAt(w.items, i);
      }
      assert CanonItems(items) == CanonItems(w.items);
    case Obj(es) =>
      var fs := w.entries;
      forall i, j | 0 <= i < |es| && 0 <= j < |fs| ensures Settles(es[i], fs[j]) {
        if Field(es[i]) == Field(fs[j]) { MeaningDecides(es[i].value, fs[j].value); }
      }
      FieldsDecide(es, fs);
    case _ =>
  }

  predicate Settles(e: Entry, f: Entry) { Field(e) == Field(f) ==> CanonEntry(e) == CanonEntry(f) }

  lemma FieldsDecide(es: seq<Entry>, fs: seq<Entry>)
    requires KeysDistinct(es) && KeysDistinct(fs) && RecordOf(Fields(es)) == RecordOf(Fields(fs))
    requires forall i, j | 0 <= i < |es| && 0 <= j < |fs| :: Settles(es[i], fs[j])
    ensures SortEntries(CanonEntries(es)) == SortEntries(CanonEntries(fs))
  {
    var a, b := CanonEntries(es), CanonEntries(fs);
    DistinctFields(es);
    DistinctFields(fs);
    RecordsDecide(Fields(es), Fields(fs));
    forall x | x in a ensures x in b {
      var i :| 0 <= i < |a| && a[i] == x;
      var j := PartnerField(es, fs, i);
      assert Settles(es[i], fs[j]);
      CanonEntriesAt(es, i);
      CanonEntriesAt(fs, j);
    }
    forall x | x in b ensures x in a {
      var j :| 0 <= j < |b| && b[j] == x;
      var i := PartnerField(fs, es, j);
      assert Settles(es[i], fs[j]);
      CanonEntriesAt(es, i);
      CanonEntriesAt(fs, j);
    }
    CanonKeys(es);
    CanonKeys(fs);
    SortEntriesSorted(a);
    SortEntriesSorted(b);
    AscendingUnique(SortEntries(a), SortEntries(b));
  }

  lemma PartnerField(es: seq<Entry>, fs: seq<Entry>, i: nat) returns (j: nat)
    requires i < |es| && forall x :: x in Fields(es) <==> x in Fields(fs)
    ensures j < |fs| && Field(es[i]) == Field(fs[j])
  {
    FieldsAt(es, i);
    assert Field(es[i]) in Fields(fs);
    j :| 0 <= j < |Fields(fs)| && Fields(fs)[j] == Field(es[i]);
    FieldsAt(fs, j);
  }

  /** Values without a negative zero are written as the same bytes exactly when they mean the same: the line forgets
      key order and nothing else. */
  lemma SameBytesExactly(v: Json, w: Json)
    requires Plain(v) && Plain(w)
    ensures Encode(v) == Encode(w) <==> Meaning(v) == Meaning(w)
  {
    if Encode(v) == Encode(w) {
      CanonicalRoundTrip(v);
      CanonicalRoundTrip(w);
      CanonMeans(v);
      CanonMeans(w);
    }
    if Meaning(v) == Meaning(w) { MeaningDecides(v, w); }
  }

  // ----- how many lines a value has

  predicate Zeroless(v: Json) { Numbers(v, text => IntOf(text) != 0) }

  lemma {:induction false} ZerolessMeaning(v: Json, w: Json)
    requires DistinctKeys(v) && DistinctKeys(w) && Meaning(v) == Meaning(w) && Zeroless(v)
    ensures Zeroless(w)
    decreases v
  {
    match v
    case Arr(items) =>
      forall i | 0 <= i < |items| ensures Zeroless(w.items[i]) {
        assert |MeaningItems(items)| == |MeaningItems(w.items)|;
        MeaningItemsAt(items, i);
        MeaningItemsAt(w.items, i);
        ZerolessMeaning(items[i], w.items[i]);
      }
    case Obj(es) =>
      var fs := w.entries;
      DistinctFields(es);
      DistinctFields(fs);
      RecordsDecide(Fields(es), Fields(fs));
      forall j | 0 <= j < |fs| ensures Zeroless(fs[j].value) {
        var i := PartnerField(fs, es, j);
        ZerolessMeaning(es[i].value, fs[j].value);
      }
    case _ =>
  }

  lemma {:induction false} ZerolessSignless(v: Json)
    requires Zeroless(v)
    ensures Signless(v)
    decreases v
  {
    match v
    case Num(text) => ZeroTexts();
    case Arr(items) => forall i | 0 <= i < |items| ensures Signless(items[i]) { ZerolessSignless(items[i]); }
    case Obj(es) => forall i | 0 <= i < |es| ensures Signless(es[i].value) { ZerolessSignless(es[i].value); }
    case _ =>
  }

  /** Every zero written in one way. */
  function Resigned(v: Json, zero: string): Json
    decreases v
  {
    match v
    case Num(text) => if IntOf(text) == 0 then Num(zero) else v
    case Arr(items) => Arr(ResignedItems(items, zero))
    case Obj(entries) => Obj(ResignedEntries(entries, zero))
    case _ => v
  }

  function ResignedItems(items: seq<Json>, zero: string): (r: seq<Json>)
    ensures |r| == |items|
    decreases items
  {
    if items == [] then [] else ResignedItems(items[..|items| - 1], zero) + [Resigned(items[|items| - 1], zero)]
  }

  function ResignedEntries(es: seq<Entry>, zero: string): (r: seq<Entry>)
    ensures |r| == |es|
    decreases es
  {
    if es == [] then []
    else ResignedEntries(es[..|es| - 1], zero) + [Entry(es[|es| - 1].key, Resigned(es[|es| - 1].value, zero))]
  }

  lemma {:induction false} ResignedItemsAt(items: seq<Json>, zero: string, i: nat)
    requires i < |items|
    ensures ResignedItems(items, zero)[i] == Resigned(items[i], zero)
  {
    if i < |items| - 1 { ResignedItemsAt(items[..|items| - 1], zero, i); }
  }

  lemma {:induction false} ResignedEntriesAt(es: seq<Entry>, zero: string, i: nat)
    requires i < |es|
    ensures ResignedEntries(es, zero)[i] == Entry(es[i].key, Resigned(es[i].value, zero))
  {
    if i < |es| - 1 { ResignedEntriesAt(es[..|es| - 1], zero, i); }
  }

  lemma ZeroTexts()
    ensures IsLiteral("0") && IsLiteral("-0") && IntOf("0") == 0 && IntOf("-0") == 0
  {
    assert "-0"[1..] == "0";
    assert NatOf("0") == 0;
  }

  lemma {:induction false} ResignedKeeps(v: Json, zero: string)
    requires Literals(v) && DistinctKeys(v) && (zero == "0" || zero == "-0")
    ensures Literals(Resigned(v, zero)) && DistinctKeys(Resigned(v, zero)) && Meaning(Resigned(v, zero)) == Meaning(v)
    decreases v
  {
    ZeroTexts();
    match v
    case Arr(items) =>
      var after := ResignedItems(items, zero);
      forall i | 0 <= i < |items|
        ensures Literals(after[i]) && DistinctKeys(after[i]) && MeaningItems(after)[i] == MeaningItems(items)[i]
      {
        ResignedItemsAt(items, zero, i);
        ResignedKeeps(items[i], zero);
        MeaningItemsAt(items, i);
        MeaningItemsAt(after, i);
      }
      assert MeaningItems(after) == MeaningItems(items);
    case Obj(es) =>
      var after := ResignedEntries(es, zero);
      forall i | 0 <= i < |es|
        ensures Literals(after[i].value) && DistinctKeys(after[i].value) && after[i].key == es[i].key
        ensures Fields(after)[i] == Fields(es)[i]
      {
        ResignedEntriesAt(es, zero, i);
        ResignedKeeps(es[i].value, zero);
        FieldsAt(es, i);
        FieldsAt(after, i);
      }
      assert Fields(after) == Fields(es);
      assert KeysDistinct(after);
    case _ =>
  }

  lemma {:induction false} ResignedZero(v: Json)
    requires Literals(v)
    ensures Signless(Resigned(v, "0"))
    ensures Signless(Resigned(v, "-0")) ==> Zeroless(v)
    decreases v
  {
    match v
    case Num(text) =>
      ZeroTexts();
    case Arr(items) =>
      forall i | 0 <= i < |items|
        ensures Signless(ResignedItems(items, "0")[i])
        ensures Signless(ResignedItems(items, "-0")[i]) ==> Zeroless(items[i])
      {
        ResignedItemsAt(items, "0", i);
        ResignedItemsAt(items, "-0", i);
        ResignedZero(items[i]);
      }
    case Obj(es) =>
      forall i | 0 <= i < |es|
        ensures Signless(ResignedEntries(es, "0")[i].value)
        ensures Signless(ResignedEntries(es, "-0")[i].value) ==> Zeroless(es[i].value)
      {
        ResignedEntriesAt(es, "0", i);
        ResignedEntriesAt(es, "-0", i);
        ResignedZero(es[i].value);
      }
    case _ =>
  }
}
