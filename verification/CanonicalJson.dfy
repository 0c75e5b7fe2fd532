/** Canonical JSON values: printing with sorted keys, decoding, and what the printed form determines. */
module CanonicalJson {
  import opened Identities
  import opened Sequences
  import opened JsonText

  datatype Json =
    | Null
    | Bool(flag: bool)
    | Num(text: string)              // a number keeps its literal
    | Str(s: Text)
    | Arr(items: seq<Json>)
    | Obj(entries: seq<Entry>)

  datatype Entry = Entry(key: Text, value: Json)

  // ----- key order: code points, the order of UTF-8 bytes

  predicate KeysAscend(es: seq<Entry>) { forall i, j | 0 <= i < j < |es| :: SeqLess(es[i].key, es[j].key) }

  predicate KeysDistinct(es: seq<Entry>) { forall i, j | 0 <= i < j < |es| :: es[i].key != es[j].key }

  function InsertEntry(sorted: seq<Entry>, e: Entry): seq<Entry> {
    if sorted == [] || SeqLess(e.key, sorted[0].key) then [e] + sorted else [sorted[0]] + InsertEntry(sorted[1..], e)
  }

  function SortEntries(es: seq<Entry>): seq<Entry> {
    if es == [] then [] else InsertEntry(SortEntries(es[..|es| - 1]), es[|es| - 1])
  }

  lemma {:induction false} InsertEntrySorted(sorted: seq<Entry>, e: Entry)
    ensures forall x :: x in InsertEntry(sorted, e) <==> x == e || x in sorted
    ensures KeysAscend(sorted) && (forall x | x in sorted :: x.key != e.key) ==> KeysAscend(InsertEntry(sorted, e))
  {
    var after := InsertEntry(sorted, e);
    if sorted != [] && !SeqLess(e.key, sorted[0].key) {
      InsertEntrySorted(sorted[1..], e);
      assert sorted == [sorted[0]] + sorted[1..];
      if KeysAscend(sorted) && forall x | x in sorted :: x.key != e.key {
        SeqLessTotal(e.key, sorted[0].key);
        var rest := InsertEntry(sorted[1..], e);
        forall j | 0 <= j < |rest| ensures SeqLess(sorted[0].key, rest[j].key) { assert rest[j] in rest; }
      }
    } else if KeysAscend(sorted) {
      forall j | 0 <= j < |sorted| && SeqLess(e.key, sorted[0].key) ensures SeqLess(e.key, sorted[j].key) {
        if j > 0 { SeqLessTransitive(e.key, sorted[0].key, sorted[j].key); }
      }
    }
  }

  lemma {:induction false} SortEntriesSorted(es: seq<Entry>)
    ensures forall x :: x in SortEntries(es) <==> x in es
    ensures KeysDistinct(es) ==> KeysAscend(SortEntries(es))
  {
    if es != [] {
      var rest, last := es[..|es| - 1], es[|es| - 1];
      SortEntriesSorted(rest);
      InsertEntrySorted(SortEntries(rest), last);
      assert es == rest + [last];
    }
  }

  /** Distinct keys have one sorted listing. */
  lemma {:induction false} AscendingUnique(a: seq<Entry>, b: seq<Entry>)
    requires KeysAscend(a) && KeysAscend(b) && forall x :: x in a <==> x in b
    ensures a == b
  {
    if a != [] { assert a[0] in b; }
    if b != [] { assert b[0] in a; }
    if a != [] && b != [] {
      HeadsEqual(a, b);
      assert a == [a[0]] + a[1..] && b == [b[0]] + b[1..];
      forall x ensures x in a[1..] <==> x in b[1..] {
        HeadNotInTail(a);
        HeadNotInTail(b);
        assert x in a <==> x == a[0] || x in a[1..];
        assert x in b <==> x == b[0] || x in b[1..];
      }
      AscendingUnique(a[1..], b[1..]);
    }
  }

  lemma HeadNotInTail(a: seq<Entry>)
    requires KeysAscend(a) && a != []
    ensures a[0] !in a[1..]
  {
    SeqLessIrreflexive(a[0].key);
  }

  lemma HeadsEqual(a: seq<Entry>, b: seq<Entry>)
    requires KeysAscend(a) && KeysAscend(b) && a != [] && b != [] && a[0] in b && b[0] in a
    ensures a[0] == b[0]
  {
    var i :| 0 <= i < |b| && b[i] == a[0];
    var j :| 0 <= j < |a| && a[j] == b[0];
    if i != 0 && j != 0 {
      SeqLessTransitive(a[0].key, b[0].key, a[0].key);
      SeqLessIrreflexive(a[0].key);
    }
  }

  // ----- the canonical form

  /** Keys sorted at every level. */
  function Canon(v: Json): Json
    decreases v
  {
    match v
    case Arr(items) => Arr(CanonItems(items))
    case Obj(entries) => Obj(SortEntries(CanonEntries(entries)))
    case _ => v
  }

  function CanonItems(items: seq<Json>): (r: seq<Json>)
    ensures |r| == |items|
    decreases items
  {
    if items == [] then [] else CanonItems(items[..|items| - 1]) + [Canon(items[|items| - 1])]
  }

  function CanonEntries(es: seq<Entry>): (r: seq<Entry>)
    ensures |r| == |es|
    decreases es
  {
    if es == [] then [] else CanonEntries(es[..|es| - 1]) + [CanonEntry(es[|es| - 1])]
  }

  function CanonEntry(e: Entry): Entry
    decreases e
  {
    Entry(e.key, Canon(e.value))
  }

  /** Parts with commas between them. */
  function Join(parts: seq<string>): string {
    if parts == [] then ""
    else (if |parts| == 1 then "" else Join(parts[..|parts| - 1]) + ",") + parts[|parts| - 1]
  }

  function Print(v: Json): string
    decreases v
  {
    match v
    case Null => "null"
    case Bool(flag) => if flag then "true" else "false"
    case Num(text) => text
    case Str(s) => EncodeString(s)
    case Arr(items) => "[" + Join(PrintItems(items)) + "]"
    case Obj(entries) => "{" + Join(PrintEntries(entries)) + "}"
  }

  function PrintItems(items: seq<Json>): (r: seq<string>)
    ensures |r| == |items|
    decreases items
  {
    if items == [] then [] else PrintItems(items[..|items| - 1]) + [Print(items[|items| - 1])]
  }

  function PrintEntry(e: Entry): string
    decreases e
  {
    EncodeString(e.key) + ":" + Print(e.value)
  }

  function PrintEntries(es: seq<Entry>): (r: seq<string>)
    ensures |r| == |es|
    decreases es
  {
    if es == [] then [] else PrintEntries(es[..|es| - 1]) + [PrintEntry(es[|es| - 1])]
  }

  lemma {:induction false} CanonItemsAt(items: seq<Json>, i: nat)
    requires i < |items|
    ensures CanonItems(items)[i] == Canon(items[i])
  {
    if i < |items| - 1 { CanonItemsAt(items[..|items| - 1], i); }
  }

  lemma {:induction false} CanonEntriesAt(es: seq<Entry>, i: nat)
    requires i < |es|
    ensures CanonEntries(es)[i] == CanonEntry(es[i])
  {
    if i < |es| - 1 { CanonEntriesAt(es[..|es| - 1], i); }
  }

  lemma {:induction false} PrintItemsAt(items: seq<Json>, i: nat)
    requires i < |items|
    ensures PrintItems(items)[i] == Print(items[i])
  {
    if i < |items| - 1 { PrintItemsAt(items[..|items| - 1], i); }
  }

  lemma {:induction false} PrintEntriesAt(es: seq<Entry>, i: nat)
    requires i < |es|
    ensures PrintEntries(es)[i] == PrintEntry(es[i])
  {
    if i < |es| - 1 { PrintEntriesAt(es[..|es| - 1], i); }
  }

  /** The one line a value is written as. */
  function Encode(v: Json): string { Print(Canon(v)) }

  // ----- numbers

  predicate IsDigit(c: char) { '0' <= c <= '9' }

  predicate AllDigits(text: string) { forall i | 0 <= i < |text| :: IsDigit(text[i]) }

  function DigitsOf(text: string): string { if text != "" && text[0] == '-' then text[1..] else text }

  /** The writer's own test on a number literal. */
  predicate IsInteger(text: string) { DigitsOf(text) != "" && AllDigits(DigitsOf(text)) }

  /** An integer literal of section 6 of RFC 8259: no superfluous zero in front. */
  predicate IsLiteral(text: string) {
    IsInteger(text) && (DigitsOf(text)[0] == '0' ==> |DigitsOf(text)| == 1)
  }

  /** Every number passes a test. */
  predicate Numbers(v: Json, test: string -> bool)
    decreases v
  {
    match v
    case Num(text) => test(text)
    case Arr(items) => forall i | 0 <= i < |items| :: Numbers(items[i], test)
    case Obj(entries) => forall i | 0 <= i < |entries| :: Numbers(entries[i].value, test)
    case _ => true
  }

  predicate Literals(v: Json) { Numbers(v, text => IsLiteral(text)) }

  predicate DistinctKeys(v: Json)
    decreases v
  {
    match v
    case Arr(items) => forall i | 0 <= i < |items| :: DistinctKeys(items[i])
    case Obj(entries) => KeysDistinct(entries) && forall i | 0 <= i < |entries| :: DistinctKeys(entries[i].value)
    case _ => true
  }

  lemma {:induction false} CanonNumbers(v: Json, test: string -> bool)
    ensures Numbers(Canon(v), test) <==> Numbers(v, test)
    decreases v
  {
    match v
    case Arr(items) =>
      var canon := Canon(v);
      forall i | 0 <= i < |items| ensures Numbers(canon.items[i], test) <==> Numbers(items[i], test) {
        CanonItemsAt(items, i);
        CanonNumbers(items[i], test);
      }
    case Obj(entries) =>
      CanonEntryNumbers(entries, test);
    case _ =>
  }

  lemma {:induction false} CanonEntryNumbers(es: seq<Entry>, test: string -> bool)
    ensures Numbers(Obj(SortEntries(CanonEntries(es))), test) <==> Numbers(Obj(es), test)
    decreases es, 0
  {
    var mapped := CanonEntries(es);
    var sorted := SortEntries(mapped);
    SortEntriesSorted(mapped);
    forall i | 0 <= i < |es| ensures Numbers(mapped[i].value, test) <==> Numbers(es[i].value, test) {
      CanonEntriesAt(es, i);
      CanonNumbers(es[i].value, test);
    }
    if Numbers(Obj(es), test) {
      forall i | 0 <= i < |sorted| ensures Numbers(sorted[i].value, test) {
        assert sorted[i] in mapped;
      }
    }
    if Numbers(Obj(sorted), test) {
      forall i | 0 <= i < |es| ensures Numbers(es[i].value, test) {
        assert mapped[i] in sorted;
        var j :| 0 <= j < |sorted| && sorted[j] == mapped[i];
      }
    }
  }

  // ----- decoding

  function DigitRun(text: string): (n: nat)
    ensures n <= |text|
  {
    if text != "" && IsDigit(text[0]) then 1 + DigitRun(text[1..]) else 0
  }

  function TakeNumber(text: string): (r: Option<(string, string)>)
    ensures r.Some? ==> |r.value.1| < |text|
  {
    var sign := if text != "" && text[0] == '-' then 1 else 0;
    var digits := text[sign..];
    var n := if digits != "" && digits[0] == '0' then 1 else DigitRun(digits);
    if n == 0 then None else Some((text[..sign + n], text[sign + n..]))
  }

  predicate StartsWith(text: string, word: string) { |word| <= |text| && text[..|word|] == word }

  function ParseValue(text: string): (r: Option<(Json, string)>)
    ensures r.Some? ==> |r.value.1| < |text|
    decreases |text|, 0
  {
    if text == "" then None
    else if text[0] == '"' then
      match TakeString(text)
      case None => None
      case Some((s, rest)) => Some((Str(s), rest))
    else if text[0] == '[' then
      if StartsWith(text[1..], "]") then Some((Arr([]), text[2..]))
      else
        match ParseItems(text[1..])
        case None => None
        case Some((items, rest)) => Some((Arr(items), rest))
    else if text[0] == '{' then
      if StartsWith(text[1..], "}") then Some((Obj([]), text[2..]))
      else
        match ParseEntries(text[1..])
        case None => None
        case Some((entries, rest)) => Some((Obj(entries), rest))
    else if StartsWith(text, "null") then Some((Null, text[4..]))
    else if StartsWith(text, "true") then Some((Bool(true), text[4..]))
    else if StartsWith(text, "false") then Some((Bool(false), text[5..]))
    else
      match TakeNumber(text)
      case None => None
      case Some((number, rest)) => Some((Num(number), rest))
  }

  function ParseItems(text: string): (r: Option<(seq<Json>, string)>)
    ensures r.Some? ==> |r.value.1| < |text|
    decreases |text|, 1
  {
    match ParseValue(text)
    case None => None
    case Some((item, rest)) =>
      if rest == "" then None
      else if rest[0] == ']' then Some(([item], rest[1..]))
      else if rest[0] != ',' then None
      else
        match ParseItems(rest[1..])
        case None => None
        case Some((more, end)) => Some(([item] + more, end))
  }

  function ParseEntry(text: string): (r: Option<(Entry, string)>)
    ensures r.Some? ==> |r.value.1| < |text|
    decreases |text|, 1
  {
    match TakeString(text)
    case None => None
    case Some((key, rest)) =>
      if rest == "" || rest[0] != ':' then None
      else
        match ParseValue(rest[1..])
        case None => None
        case Some((value, end)) => Some((Entry(key, value), end))
  }

  function ParseEntries(text: string): (r: Option<(seq<Entry>, string)>)
    ensures r.Some? ==> |r.value.1| < |text|
    decreases |text|, 2
  {
    match ParseEntry(text)
    case None => None
    case Some((entry, rest)) =>
      if rest == "" then None
      else if rest[0] == '}' then Some(([entry], rest[1..]))
      else if rest[0] != ',' then None
      else
        match ParseEntries(rest[1..])
        case None => None
        case Some((more, end)) => Some(([entry] + more, end))
  }

  function Decode(text: string): Option<Json> {
    match ParseValue(text)
    case Some((v, rest)) => if rest == "" then Some(v) else None
    case None => None
  }
}
