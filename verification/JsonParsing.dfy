/** What the parser reads: serde_json stops at a nesting of 128, with arbitrary_precision an object that starts with its
    private number key is read as the number in that field, and "-0" may be read as it is spelled or as "0". */
module JsonParsing {
  import opened Identities
  import opened Sequences
  import opened JsonText
  import opened CanonicalJson
  import opened JsonMeaning

  function Characters(s: string): Text { seq(|s|, i requires 0 <= i < |s| => s[i] as nat) }

  function StringOf(s: Text): string { seq(|s|, i requires 0 <= i < |s| => s[i] as char) }

  // Both constants belong to the serde_json crate.
  const NUMBER_TOKEN: Text := Characters("$serde_json::private::Number")
  const DEPTH_LIMIT: nat := 128

  /** The token is the least key, so a canonical line puts it first. */
  predicate TokenFirst(es: seq<Entry>) {
    && (exists i :: 0 <= i < |es| && es[i].key == NUMBER_TOKEN)
    && (forall i | 0 <= i < |es| :: !SeqLess(es[i].key, NUMBER_TOKEN))
  }

  /** No object has the token as its least key, and fewer than room levels are nested. */
  predicate Readable(v: Json, room: nat)
    decreases v
  {
    match v
    case Arr(items) => room > 1 && forall i | 0 <= i < |items| :: Readable(items[i], room - 1)
    case Obj(es) => room > 1 && !TokenFirst(es) && forall i | 0 <= i < |es| :: Readable(es[i].value, room - 1)
    case _ => true
  }

  lemma SameFirst(es: seq<Entry>, fs: seq<Entry>)
    requires forall x :: x in Fields(es) <==> x in Fields(fs)
    ensures TokenFirst(es) ==> TokenFirst(fs)
  {
    if TokenFirst(es) {
      var i :| 0 <= i < |es| && es[i].key == NUMBER_TOKEN;
      var j := PartnerField(es, fs, i);
      assert fs[j].key == NUMBER_TOKEN;
      forall j | 0 <= j < |fs| ensures !SeqLess(fs[j].key, NUMBER_TOKEN) {
        var i := PartnerField(fs, es, j);
        assert es[i].key == fs[j].key;
      }
    }
  }

  /** Whether a value is readable depends on its meaning alone. */
  lemma {:induction false} ReadableMeaning(v: Json, w: Json, room: nat)
    requires DistinctKeys(v) && DistinctKeys(w) && Meaning(v) == Meaning(w) && Readable(v, room)
    ensures Readable(w, room)
    decreases v
  {
    match v
    case Arr(items) =>
      forall i | 0 <= i < |items| ensures Readable(w.items[i], room - 1) {
        assert |MeaningItems(items)| == |MeaningItems(w.items)|;
        MeaningItemsAt(items, i);
        MeaningItemsAt(w.items, i);
        ReadableMeaning(items[i], w.items[i], room - 1);
      }
      assert |MeaningItems(items)| == |MeaningItems(w.items)|;
    case Obj(es) =>
      var fs := w.entries;
      DistinctFields(es);
      DistinctFields(fs);
      RecordsDecide(Fields(es), Fields(fs));
      SameFirst(fs, es);
      forall j | 0 <= j < |fs| ensures Readable(fs[j].value, room - 1) {
        var i := PartnerField(fs, es, j);
        ReadableMeaning(es[i].value, fs[j].value, room - 1);
      }
    case _ =>
  }

  /** The parser gives the value back: it is readable, and no sign of a zero gets lost. */
  predicate ReadBack(v: Json, keepsSign: bool) { Returned(v, DEPTH_LIMIT, keepsSign) }

  predicate Returned(v: Json, room: nat, keepsSign: bool) { Readable(v, room) && (keepsSign || Signless(v)) }

  // ----- the parser's own pass over a value in the order it was written

  function ReadNumber(text: string, keepsSign: bool): string { if !keepsSign && text == "-0" then "0" else text }

  function Reread(v: Json, room: nat, keepsSign: bool): Option<Json>
    decreases v
  {
    match v
    case Num(text) => Some(Num(ReadNumber(text, keepsSign)))
    case Arr(items) =>
      if room <= 1 then None
      else (match RereadItems(items, room - 1, keepsSign) case Some(r) => Some(Arr(r)) case None => None)
    case Obj(es) =>
      if room <= 1 then None
      else if es != [] && es[0].key == NUMBER_TOKEN then PrivateNumber(es, keepsSign)
      else (match RereadEntries(es, room - 1, keepsSign) case Some(r) => Some(Obj(r)) case None => None)
    case _ => Some(v)
  }

  /** One field, and in it the text of a number. */
  function PrivateNumber(es: seq<Entry>, keepsSign: bool): (r: Option<Json>)
    requires es != []
    ensures r.Some? ==> r.value.Num?
  {
    if |es| == 1 && es[0].value.Str? && IsLiteral(StringOf(es[0].value.s)) then
      Some(Num(ReadNumber(StringOf(es[0].value.s), keepsSign)))
    else None
  }

  function RereadItems(items: seq<Json>, room: nat, keepsSign: bool): (r: Option<seq<Json>>)
    decreases items
  {
    if items == [] then Some([])
    else
      match (RereadItems(items[..|items| - 1], room, keepsSign), Reread(items[|items| - 1], room, keepsSign))
      case (Some(more), Some(item)) => Some(more + [item])
      case _ => None
  }

  function RereadEntries(es: seq<Entry>, room: nat, keepsSign: bool): (r: Option<seq<Entry>>)
    decreases es
  {
    if es == [] then Some([])
    else
      match (RereadEntries(es[..|es| - 1], room, keepsSign), Reread(es[|es| - 1].value, room, keepsSign))
      case (Some(more), Some(value)) => Some(more + [Entry(es[|es| - 1].key, value)])
      case _ => None
  }

  lemma {:induction false} ItemsRead(items: seq<Json>, room: nat, keepsSign: bool)
    ensures RereadItems(items, room, keepsSign).Some? <==> forall i | 0 <= i < |items| :: Reread(items[i], room, keepsSign).Some?
    ensures RereadItems(items, room, keepsSign).Some? ==> (var r := RereadItems(items, room, keepsSign).value;
              |r| == |items| && forall i | 0 <= i < |items| :: Some(r[i]) == Reread(items[i], room, keepsSign))
  {
    if items != [] { ItemsRead(items[..|items| - 1], room, keepsSign); }
  }

  lemma {:induction false} EntriesRead(es: seq<Entry>, room: nat, keepsSign: bool)
    ensures RereadEntries(es, room, keepsSign).Some? <==> forall i | 0 <= i < |es| :: Reread(es[i].value, room, keepsSign).Some?
    ensures RereadEntries(es, room, keepsSign).Some? ==> (var r := RereadEntries(es, room, keepsSign).value;
              |r| == |es| && forall i | 0 <= i < |es| :: r[i].key == es[i].key && Some(r[i].value) == Reread(es[i].value, room, keepsSign))
  {
    if es != [] { EntriesRead(es[..|es| - 1], room, keepsSign); }
  }

  lemma ItemsKept(items: seq<Json>, room: nat, keepsSign: bool)
    ensures RereadItems(items, room, keepsSign) == Some(items) <==> forall i | 0 <= i < |items| :: Reread(items[i], room, keepsSign) == Some(items[i])
  {
    ItemsRead(items, room, keepsSign);
    if RereadItems(items, room, keepsSign).Some? {
      var r := RereadItems(items, room, keepsSign).value;
      if forall i | 0 <= i < |items| :: Reread(items[i], room, keepsSign) == Some(items[i]) { assert r == items; }
    }
  }

  lemma EntriesKept(es: seq<Entry>, room: nat, keepsSign: bool)
    ensures RereadEntries(es, room, keepsSign) == Some(es) <==> forall i | 0 <= i < |es| :: Reread(es[i].value, room, keepsSign) == Some(es[i].value)
  {
    EntriesRead(es, room, keepsSign);
    if RereadEntries(es, room, keepsSign).Some? {
      var r := RereadEntries(es, room, keepsSign).value;
      if forall i | 0 <= i < |es| :: Reread(es[i].value, room, keepsSign) == Some(es[i].value) { assert r == es; }
    }
  }

  /** Keys ascend at every level. */
  predicate Sorted(v: Json)
    decreases v
  {
    match v
    case Arr(items) => forall i | 0 <= i < |items| :: Sorted(items[i])
    case Obj(es) => KeysAscend(es) && forall i | 0 <= i < |es| :: Sorted(es[i].value)
    case _ => true
  }

  lemma FirstOfSorted(es: seq<Entry>)
    requires KeysAscend(es)
    ensures TokenFirst(es) <==> es != [] && es[0].key == NUMBER_TOKEN
  {
    if es != [] && es[0].key == NUMBER_TOKEN {
      SeqLessIrreflexive(NUMBER_TOKEN);
      forall i | 0 <= i < |es| ensures !SeqLess(es[i].key, NUMBER_TOKEN) {
        if SeqLess(es[i].key, NUMBER_TOKEN) { SeqLessTransitive(es[i].key, NUMBER_TOKEN, es[i].key); }
        SeqLessIrreflexive(es[i].key);
      }
    }
  }

  /** A sorted value is read as itself exactly when it is readable and no zero loses its sign. */
  lemma {:induction false} RereadExactly(v: Json, room: nat, keepsSign: bool)
    requires Sorted(v)
    ensures Reread(v, room, keepsSign) == Some(v) <==> Returned(v, room, keepsSign)
    decreases v
  {
    match v
    case Arr(items) =>
      if room > 1 {
        forall i | 0 <= i < |items| ensures Reread(items[i], room - 1, keepsSign) == Some(items[i]) <==> Returned(items[i], room - 1, keepsSign) {
          RereadExactly(items[i], room - 1, keepsSign);
        }
        ItemsKept(items, room - 1, keepsSign);
      }
    case Obj(es) =>
      FirstOfSorted(es);
      if room > 1 {
        forall i | 0 <= i < |es| ensures Reread(es[i].value, room - 1, keepsSign) == Some(es[i].value) <==> Returned(es[i].value, room - 1, keepsSign) {
          RereadExactly(es[i].value, room - 1, keepsSign);
        }
        EntriesKept(es, room - 1, keepsSign);
      }
    case _ =>
  }

  lemma {:induction false} RereadSorted(v: Json, room: nat, keepsSign: bool)
    requires Sorted(v)
    ensures Reread(v, room, keepsSign).Some? ==> Sorted(Reread(v, room, keepsSign).value)
    decreases v
  {
    match v
    case Arr(items) =>
      if room > 1 {
        forall i | 0 <= i < |items| ensures Reread(items[i], room - 1, keepsSign).Some? ==> Sorted(Reread(items[i], room - 1, keepsSign).value) {
          RereadSorted(items[i], room - 1, keepsSign);
        }
        ItemsRead(items, room - 1, keepsSign);
      }
    case Obj(es) =>
      if room > 1 {
        forall i | 0 <= i < |es| ensures Reread(es[i].value, room - 1, keepsSign).Some? ==> Sorted(Reread(es[i].value, room - 1, keepsSign).value) {
          RereadSorted(es[i].value, room - 1, keepsSign);
        }
        EntriesRead(es, room - 1, keepsSign);
      }
    case _ =>
  }

  // ----- the canonical form is sorted, and sorting it again changes nothing

  lemma {:induction false} CanonSorted(v: Json)
    requires DistinctKeys(v)
    ensures Sorted(Canon(v)) && DistinctKeys(Canon(v))
    decreases v
  {
    match v
    case Arr(items) =>
      forall i | 0 <= i < |items| ensures Sorted(CanonItems(items)[i]) && DistinctKeys(CanonItems(items)[i]) {
        CanonItemsAt(items, i);
        CanonSorted(items[i]);
      }
    case Obj(es) =>
      var mapped := CanonEntries(es);
      var sorted := SortEntries(mapped);
      forall i | 0 <= i < |es| ensures Sorted(mapped[i].value) && DistinctKeys(mapped[i].value) {
        CanonEntriesAt(es, i);
        CanonSorted(es[i].value);
      }
      CanonKeys(es);
      SortEntriesSorted(mapped);
      AscendingDistinct(sorted);
      forall i | 0 <= i < |sorted| ensures Sorted(sorted[i].value) && DistinctKeys(sorted[i].value) {
        assert sorted[i] in mapped;
        var k :| 0 <= k < |mapped| && mapped[k] == sorted[i];
      }
    case _ =>
  }

  lemma {:induction false} SortedCanon(v: Json)
    requires Sorted(v)
    ensures Canon(v) == v
    decreases v
  {
    match v
    case Arr(items) =>
      forall i | 0 <= i < |items| ensures CanonItems(items)[i] == items[i] {
        CanonItemsAt(items, i);
        SortedCanon(items[i]);
      }
      assert CanonItems(items) == items;
    case Obj(es) =>
      forall i | 0 <= i < |es| ensures CanonEntries(es)[i] == es[i] {
        CanonEntriesAt(es, i);
        SortedCanon(es[i].value);
      }
      assert CanonEntries(es) == es;
      AscendingDistinct(es);
      SortEntriesSorted(es);
      AscendingUnique(SortEntries(es), es);
    case _ =>
  }

  /** The canonical form of a value is sorted, means the same and is readable exactly when the value is. */
  lemma CanonForm(v: Json)
    requires DistinctKeys(v)
    ensures Sorted(Canon(v)) && DistinctKeys(Canon(v)) && Canon(Canon(v)) == Canon(v) && Meaning(Canon(v)) == Meaning(v)
    ensures forall room: nat :: Readable(Canon(v), room) <==> Readable(v, room)
    ensures Signless(Canon(v)) <==> Signless(v)
  {
    CanonSorted(v);
    SortedCanon(Canon(v));
    CanonMeans(v);
    CanonNumbers(v, text => text != "-0");
    forall room: nat ensures Readable(Canon(v), room) <==> Readable(v, room) {
      if Readable(v, room) { ReadableMeaning(v, Canon(v), room); }
      if Readable(Canon(v), room) { ReadableMeaning(Canon(v), v, room); }
    }
  }
}
