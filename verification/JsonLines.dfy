/** The canonical writer and the reader of canonical lines. */
module JsonLines {
  import opened Identities
  import opened Hex
  import opened Sequences
  import opened JsonText
  import opened CanonicalJson
  import opened JsonRoundTrip
  import opened JsonMeaning
  import opened JsonParsing

  /** The writer accepts a value when every number is an integer. */
  predicate Writable(v: Json) { Numbers(v, text => IsInteger(text)) }

  lemma {:induction false} InsertCommutes(sorted: seq<Entry>, e: Entry)
    ensures CanonEntries(InsertEntry(sorted, e)) == InsertEntry(CanonEntries(sorted), CanonEntry(e))
  {
    var mapped := CanonEntries(sorted);
    if sorted != [] {
      CanonEntriesAt(sorted, 0);
      if SeqLess(e.key, sorted[0].key) {
        CanonPrepend(e, sorted);
      } else {
        InsertCommutes(sorted[1..], e);
        CanonPrepend(sorted[0], InsertEntry(sorted[1..], e));
        CanonPrepend(sorted[0], sorted[1..]);
        assert sorted == [sorted[0]] + sorted[1..];
        assert mapped[1..] == CanonEntries(sorted[1..]);
      }
    }
  }

  lemma CanonPrepend(e: Entry, es: seq<Entry>)
    ensures CanonEntries([e] + es) == [CanonEntry(e)] + CanonEntries(es)
  {
    var all := [e] + es;
    forall i | 0 <= i < |all| ensures CanonEntries(all)[i] == ([CanonEntry(e)] + CanonEntries(es))[i] {
      CanonEntriesAt(all, i);
      if i > 0 { CanonEntriesAt(es, i - 1); }
    }
  }

  /** Sorting looks at keys only, so it does not matter whether children are made canonical before or after. */
  lemma {:induction false} SortCommutes(es: seq<Entry>)
    ensures CanonEntries(SortEntries(es)) == SortEntries(CanonEntries(es))
  {
    if es != [] {
      var n := |es| - 1;
      SortCommutes(es[..n]);
      InsertCommutes(SortEntries(es[..n]), es[n]);
    }
  }

  class CanonicalWriter {
    var output: string

    constructor ()
      ensures output == ""
    {
      output := "";
    }

    method WriteHexQuad(value: nat)
      requires value < 0x10000
      modifies this
      ensures output == old(output) + HexQuad(value)
    {
      output := output + "\\u";
      output := output + [HexDigit(value / 4096)];
      output := output + [HexDigit(value / 256 % 16)];
      output := output + [HexDigit(value / 16 % 16)];
      output := output + [HexDigit(value % 16)];
    }

    method WriteChar(c: Scalar)
      modifies this
      ensures output == old(output) + EncodeChar(c)
    {
      if c == 0x22 {
        output := output + "\\\"";
      } else if c == 0x5C {
        output := output + "\\\\";
      } else if c == 0x08 {
        output := output + "\\b";
      } else if c == 0x0C {
        output := output + "\\f";
      } else if c == 0x0A {
        output := output + "\\n";
      } else if c == 0x0D {
        output := output + "\\r";
      } else if c == 0x09 {
        output := output + "\\t";
      } else if c < 0x20 {
        WriteHexQuad(c);
      } else if c <= 0x7F {
        output := output + [c as char];
      } else if c <= 0xFFFF {
        WriteHexQuad(c);
      } else {
        WriteHexQuad(High(c));
        WriteHexQuad(Low(c));
      }
    }

    method WriteString(value: Text)
      modifies this
      ensures output == old(output) + EncodeString(value)
    {
      ghost var start := output;
      output := output + "\"";
      WriteBody(value);
      output := output + "\"";
      Glue(start, EncodeBody(value));
    }

    method WriteBody(value: Text)
      modifies this
      ensures output == old(output) + EncodeBody(value)
    {
      ghost var start := output;
      for i := 0 to |value|
        invariant output == start + EncodeBody(value[..i])
      {
        BodySnoc(value, i);
        Associative(start, EncodeBody(value[..i]), EncodeChar(value[i]));
        WriteChar(value[i]);
      }
      assert value[..|value|] == value;
    }

    /** Appends the canonical line of a value, or stops at a number that is no integer. */
    method WriteValue(v: Json) returns (ok: bool)
      modifies this
      ensures ok <==> Writable(v)
      ensures ok ==> output == old(output) + Encode(v)
      decreases v, 1
    {
      ok := true;
      match v
      case Null => output := output + "null";
      case Bool(flag) => output := output + if flag then "true" else "false";
      case Num(text) =>
        if !IsInteger(text) { return false; }
        output := output + text;
      case Str(s) => WriteString(s);
      case Arr(items) => ok := WriteItems(items);
      case Obj(entries) => ok := WriteEntries(entries);
    }

    method WriteItems(items: seq<Json>) returns (ok: bool)
      modifies this
      ensures ok <==> Writable(Arr(items))
      ensures ok ==> output == old(output) + Encode(Arr(items))
      decreases items, 1
    {
      ItemsWritableExactly(items);
      ghost var start := output;
      output := output + "[";
      ok := WriteEach(items);
      if !ok { return; }
      output := output + "]";
      Bracket(start, "[", Join(PrintItems(CanonItems(items))), "]");
    }

    method WriteEach(items: seq<Json>) returns (ok: bool)
      modifies this
      ensures ok <==> ItemsWritable(items)
      ensures ok ==> output == old(output) + Join(PrintItems(CanonItems(items)))
      decreases items, 0
    {
      ghost var start, parts := output, PrintItems(CanonItems(items));
      for i := 0 to |items|
        invariant ItemsWritable(items[..i])
        invariant output == start + Join(parts[..i])
      {
        ghost var before := output;
        ItemsWritableStep(items, i);
        if i != 0 { output := output + ","; }
        ok := WriteValue(items[i]);
        if !ok { return; }
        CanonItemsAt(items, i);
        PrintItemsAt(CanonItems(items), i);
        JoinStep(start, parts, i, before, output);
      }
      assert parts[..|items|] == parts && items[..|items|] == items;
      ok := true;
    }

    /** Members go out in key order. */
    method WriteEntries(entries: seq<Entry>) returns (ok: bool)
      modifies this
      ensures ok <==> Writable(Obj(entries))
      ensures ok ==> output == old(output) + Encode(Obj(entries))
      decreases entries, 1
    {
      var sorted := SortEntries(entries);
      SortedWrites(entries);
      ghost var start := output;
      output := output + "{";
      ok := WriteSorted(sorted, entries);
      if !ok { return; }
      output := output + "}";
      Bracket(start, "{", Join(PrintEntries(CanonEntries(sorted))), "}");
    }

    method WriteSorted(sorted: seq<Entry>, ghost entries: seq<Entry>) returns (ok: bool)
      requires forall i | 0 <= i < |sorted| :: sorted[i] in entries
      modifies this
      ensures ok <==> AllWritable(sorted)
      ensures ok ==> output == old(output) + Join(PrintEntries(CanonEntries(sorted)))
      decreases entries, 0
    {
      ghost var start, parts := output, PrintEntries(CanonEntries(sorted));
      for i := 0 to |sorted|
        invariant AllWritable(sorted[..i])
        invariant output == start + Join(parts[..i])
      {
        ghost var before := output;
        ghost var k := Place(sorted[i], entries);
        AllWritableStep(sorted, i);
        if i != 0 { output := output + ","; }
        ok := WriteEntry(entries[k], sorted[i]);
        if !ok { return; }
        PrintedAt(sorted, i);
        JoinStep(start, parts, i, before, output);
      }
      assert parts[..|sorted|] == parts && sorted[..|sorted|] == sorted;
      ok := true;
    }

    method WriteEntry(ghost same: Entry, e: Entry) returns (ok: bool)
      requires same == e
      modifies this
      ensures ok <==> Writable(e.value)
      ensures ok ==> output == old(output) + PrintEntry(CanonEntry(e))
      decreases same, 2
    {
      ghost var start := output;
      WriteString(e.key);
      output := output + ":";
      ok := WriteValue(e.value);
      Bracket(start, EncodeString(e.key), ":", Encode(e.value));
    }
  }

  /** The sorted members are members, writable together exactly when the object is, and print as it. */
  lemma SortedWrites(entries: seq<Entry>)
    ensures forall i | 0 <= i < |SortEntries(entries)| :: SortEntries(entries)[i] in entries
    ensures AllWritable(SortEntries(entries)) <==> Writable(Obj(entries))
    ensures "{" + Join(PrintEntries(CanonEntries(SortEntries(entries)))) + "}" == Encode(Obj(entries))
  {
    var sorted := SortEntries(entries);
    SortEntriesSorted(entries);
    SortedText(entries);
    SameWritable(entries, sorted);
    AllWritableExactly(sorted);
  }

  lemma SortedText(entries: seq<Entry>)
    ensures "{" + Join(PrintEntries(CanonEntries(SortEntries(entries)))) + "}" == Encode(Obj(entries))
  {
    SortCommutes(entries);
  }

  predicate ItemsWritable(items: seq<Json>) {
    items == [] || (ItemsWritable(items[..|items| - 1]) && Writable(items[|items| - 1]))
  }

  lemma {:induction false} ItemsWritableExactly(items: seq<Json>)
    ensures ItemsWritable(items) <==> forall i | 0 <= i < |items| :: Writable(items[i])
  {
    if items != [] { ItemsWritableExactly(items[..|items| - 1]); }
  }

  lemma ItemsWritableStep(items: seq<Json>, i: nat)
    requires i < |items|
    ensures ItemsWritable(items[..i + 1]) <==> ItemsWritable(items[..i]) && Writable(items[i])
    ensures ItemsWritable(items) ==> Writable(items[i])
  {
    assert items[..i + 1][..i] == items[..i];
    ItemsWritableExactly(items);
  }

  predicate AllWritable(es: seq<Entry>) {
    es == [] || (AllWritable(es[..|es| - 1]) && Writable(es[|es| - 1].value))
  }

  lemma {:induction false} AllWritableExactly(es: seq<Entry>)
    ensures AllWritable(es) <==> forall i | 0 <= i < |es| :: Writable(es[i].value)
  {
    if es != [] { AllWritableExactly(es[..|es| - 1]); }
  }

  /** A prefix decides together with the next entry, and a failing entry fails the whole list. */
  lemma AllWritableStep(es: seq<Entry>, i: nat)
    requires i < |es|
    ensures AllWritable(es[..i + 1]) <==> AllWritable(es[..i]) && Writable(es[i].value)
    ensures AllWritable(es) ==> Writable(es[i].value)
  {
    assert es[..i + 1][..i] == es[..i];
    AllWritableExactly(es);
  }

  lemma Place(e: Entry, es: seq<Entry>) returns (k: nat)
    requires e in es
    ensures k < |es| && es[k] == e
  {
    k :| 0 <= k < |es| && es[k] == e;
  }

  lemma PrintedAt(es: seq<Entry>, i: nat)
    requires i < |es|
    ensures PrintEntries(CanonEntries(es))[i] == PrintEntry(CanonEntry(es[i]))
  {
    CanonEntriesAt(es, i);
    PrintEntriesAt(CanonEntries(es), i);
  }

  lemma Glue(start: string, body: string)
    ensures start + "\"" + body + "\"" == start + ("\"" + body + "\"")
  {
  }

  lemma Associative(a: string, b: string, c: string)
    ensures a + b + c == a + (b + c)
  {
  }

  lemma Bracket(start: string, open: string, body: string, close: string)
    ensures start + open + body + close == start + (open + body + close)
  {
  }

  lemma BodySnoc(value: Text, i: nat)
    requires i < |value|
    ensures EncodeBody(value[..i + 1]) == EncodeBody(value[..i]) + EncodeChar(value[i])
  {
    assert value[..i + 1][..i] == value[..i];
  }

  lemma JoinStep(start: string, parts: seq<string>, i: nat, before: string, after: string)
    requires i < |parts| && before == start + Join(parts[..i])
    requires after == before + (if i == 0 then "" else ",") + parts[i]
    ensures after == start + Join(parts[..i + 1])
  {
    JoinSnoc(parts, i);
  }

  lemma SameWritable(es: seq<Entry>, sorted: seq<Entry>)
    requires forall x :: x in sorted <==> x in es
    ensures (forall i | 0 <= i < |es| :: Writable(es[i].value)) <==> (forall i | 0 <= i < |sorted| :: Writable(sorted[i].value))
  {
    if forall i | 0 <= i < |es| :: Writable(es[i].value) {
      forall i | 0 <= i < |sorted| ensures Writable(sorted[i].value) {
        assert sorted[i] in es;
        var k :| 0 <= k < |es| && es[k] == sorted[i];
      }
    }
    if forall i | 0 <= i < |sorted| :: Writable(sorted[i].value) {
      forall i | 0 <= i < |es| ensures Writable(es[i].value) {
        assert es[i] in sorted;
        var k :| 0 <= k < |sorted| && sorted[k] == es[i];
      }
    }
  }

  lemma JoinSnoc(parts: seq<string>, i: nat)
    requires i < |parts|
    ensures Join(parts[..i + 1]) == (if i == 0 then "" else Join(parts[..i]) + ",") + parts[i]
  {
    assert parts[..i + 1][..i] == parts[..i];
  }

  // ----- lines

  /** What the writer puts out is printable ASCII, so a line never holds a line end. */
  lemma {:induction false} PrintPrintable(v: Json)
    requires Literals(v)
    ensures Printable(Print(v))
    decreases v, 1
  {
    match v
    case Num(text) => LiteralPrintable(text);
    case Str(s) => StringPrintable(s);
    case Arr(items) =>
      forall i | 0 <= i < |items| ensures Printable(PrintItems(items)[i]) {
        PrintItemsAt(items, i);
        PrintPrintable(items[i]);
      }
      JoinPrintable(PrintItems(items));
      Around("[", Join(PrintItems(items)), "]");
    case Obj(es) =>
      forall i | 0 <= i < |es| ensures Printable(PrintEntries(es)[i]) {
        PrintEntriesAt(es, i);
        PrintPrintable(es[i].value);
        StringPrintable(es[i].key);
        Around(EncodeString(es[i].key), ":", Print(es[i].value));
      }
      JoinPrintable(PrintEntries(es));
      Around("{", Join(PrintEntries(es)), "}");
    case _ =>
  }

  lemma Around(a: string, b: string, c: string)
    requires Printable(a) && Printable(b) && Printable(c)
    ensures Printable(a + b + c)
  {
  }

  lemma LiteralPrintable(text: string)
    requires IsLiteral(text)
    ensures Printable(text)
  {
    forall i | 0 <= i < |text| ensures 0x20 <= text[i] as nat < 0x80 {
      if text[0] == '-' && i > 0 { assert text[i] == DigitsOf(text)[i - 1]; }
    }
  }

  lemma {:induction false} JoinPrintable(parts: seq<string>)
    requires forall i | 0 <= i < |parts| :: Printable(parts[i])
    ensures Printable(Join(parts))
  {
    if parts != [] { JoinPrintable(parts[..|parts| - 1]); }
  }

  /** A JSON parser the reader can use.  It returns objects with their keys sorted and never twice, keeps number literals
      as section 6 of RFC 8259 spells them, and reads exactly the canonical lines of readable values as those values,
      except that it may read a zero without its sign. */
  ghost predicate Parser(parse: string -> Option<Json>, keepsSign: bool) {
    && (forall v | Literals(v) && DistinctKeys(v) :: parse(Encode(v)) == Some(Canon(v)) <==> ReadBack(v, keepsSign))
    && (forall line | parse(line).Some? :: Sound(parse(line).value))
  }

  ghost predicate Sound(v: Json) { DistinctKeys(v) && Canon(v) == v && (Writable(v) ==> Literals(v)) }

  /** A value in the form the reader returns it. */
  ghost predicate Canonical(v: Json, keepsSign: bool) { Literals(v) && DistinctKeys(v) && Canon(v) == v && ReadBack(v, keepsSign) }

  function AcceptLine(line: string, parse: string -> Option<Json>): Option<Json> {
    if line == "" || line[|line| - 1] == '\r' then None
    else
      match parse(line)
      case None => None
      case Some(v) => if Writable(v) && Encode(v) == line then Some(v) else None
  }

  /** The accept test takes exactly the lines the writer writes, whichever parser it uses. */
  lemma AcceptLineExactly(line: string, parse: string -> Option<Json>, keepsSign: bool, v: Json)
    requires Parser(parse, keepsSign)
    ensures AcceptLine(line, parse) == Some(v) <==> Canonical(v, keepsSign) && line == Encode(v)
  {
    if Canonical(v, keepsSign) && line == Encode(v) {
      CanonNumbers(v, text => IsLiteral(text));
      PrintPrintable(v);
      PrintStart(v);
      LiteralsWritable(v);
    }
    if AcceptLine(line, parse) == Some(v) {
      assert parse(line) == Some(v) && Sound(v);
    }
  }

  lemma {:induction false} LiteralsWritable(v: Json)
    requires Literals(v)
    ensures Writable(v)
    decreases v
  {
    match v
    case Arr(items) => forall i | 0 <= i < |items| ensures Writable(items[i]) { LiteralsWritable(items[i]); }
    case Obj(es) => forall i | 0 <= i < |es| ensures Writable(es[i].value) { LiteralsWritable(es[i].value); }
    case _ =>
  }

  /** Where the first line ends. */
  function LineEnd(data: string): (k: nat)
    ensures k <= |data|
    ensures forall i | 0 <= i < k :: data[i] != '\n'
    ensures k < |data| ==> data[k] == '\n'
  {
    if data == "" || data[0] == '\n' then 0 else 1 + LineEnd(data[1..])
  }

  function JoinLines(vs: seq<Json>): string { if vs == [] then "" else Encode(vs[0]) + "\n" + JoinLines(vs[1..]) }

  ghost predicate GoodLines(vs: seq<Json>, maximum: nat, keepsSign: bool) {
    forall i | 0 <= i < |vs| :: Canonical(vs[i], keepsSign) && |Encode(vs[i])| <= maximum
  }

  lemma LineEndAt(line: string, rest: string)
    requires Printable(line)
    ensures LineEnd(line + "\n" + rest) == |line|
  {
    var data := line + "\n" + rest;
    assert data[|line|] == '\n';
    assert forall i | 0 <= i < |line| :: data[i] == line[i] && 0x20 <= line[i] as nat;
  }

  /** No sequence of canonical values within the bound is written as these bytes. */
  ghost predicate Unreadable(data: string, maximum: nat, keepsSign: bool) {
    forall vs | vs != [] && GoodLines(vs, maximum, keepsSign) :: data != JoinLines(vs)
  }

  predicate EndsInLine(data: string) { data != "" && data[|data| - 1] == '\n' }

  /** The line loop. */
  method ParseCanonicalLines(data: string, maximum: nat, parse: string -> Option<Json>, ghost keepsSign: bool)
    returns (r: Option<seq<Json>>)
    requires Parser(parse, keepsSign)
    ensures r.Some? ==> r.value != [] && GoodLines(r.value, maximum, keepsSign) && data == JoinLines(r.value)
    ensures r.None? ==> Unreadable(data, maximum, keepsSign)
  {
    if !EndsInLine(data) {
      forall vs | vs != [] && GoodLines(vs, maximum, keepsSign) ensures data != JoinLines(vs) { JoinLinesEnd(vs); }
      return None;
    }
    var result: seq<Json>, rest := [], data;
    while rest != ""
      invariant Reading(result, rest, data, maximum, keepsSign)
      decreases |rest|
    {
      var k := LineEnd(rest);
      var v := AcceptLine(rest[..k], parse);
      if k > maximum || v.None? {
        RejectedLine(data, result, rest, maximum, parse, keepsSign);
        return None;
      }
      AcceptedLine(result, rest, maximum, parse, keepsSign, v.value);
      NextReading(result, rest, data, maximum, keepsSign, v.value, k);
      rest := rest[k + 1..];
      result := result + [v.value];
    }
    r := Some(result);
  }

  /** The lines taken so far and the rest make up the data. */
  ghost predicate Reading(result: seq<Json>, rest: string, data: string, maximum: nat, keepsSign: bool) {
    && GoodLines(result, maximum, keepsSign) && data == JoinLines(result) + rest
    && (if rest == "" then result != [] else EndsInLine(rest))
  }

  lemma NextReading(result: seq<Json>, rest: string, data: string, maximum: nat, keepsSign: bool, v: Json, k: nat)
    requires Reading(result, rest, data, maximum, keepsSign) && k < |rest| && GoodLines(result + [v], maximum, keepsSign)
    requires JoinLines(result) + rest == JoinLines(result + [v]) + rest[k + 1..]
    ensures Reading(result + [v], rest[k + 1..], data, maximum, keepsSign)
  {
    if k + 1 < |rest| { assert rest[k + 1..][|rest| - k - 2] == rest[|rest| - 1]; }
  }

  lemma AcceptedLine(result: seq<Json>, rest: string, maximum: nat, parse: string -> Option<Json>, keepsSign: bool, v: Json)
    requires Parser(parse, keepsSign) && GoodLines(result, maximum, keepsSign) && rest != "" && rest[|rest| - 1] == '\n'
    requires LineEnd(rest) <= maximum && AcceptLine(rest[..LineEnd(rest)], parse) == Some(v)
    ensures LineEnd(rest) < |rest| && GoodLines(result + [v], maximum, keepsSign)
    ensures JoinLines(result) + rest == JoinLines(result + [v]) + rest[LineEnd(rest) + 1..]
  {
    var k := LineEnd(rest);
    AcceptLineExactly(rest[..k], parse, keepsSign, v);
    JoinLinesSnoc(result, v);
    SplitLine(JoinLines(result), rest, k);
  }

  lemma SplitLine(before: string, rest: string, k: nat)
    requires rest != "" && rest[|rest| - 1] == '\n' && k == LineEnd(rest)
    ensures k < |rest| && before + rest == before + (rest[..k] + "\n") + rest[k + 1..]
  {
    assert rest[k] == '\n';
    Rejoin(rest, k);
    Outer(before, rest[..k] + "\n", rest[k + 1..]);
  }

  lemma Rejoin(rest: string, k: nat)
    requires k < |rest| && rest[k] == '\n'
    ensures rest == rest[..k] + "\n" + rest[k + 1..]
  {
  }

  lemma Outer(a: string, b: string, c: string)
    ensures a + (b + c) == a + b + c
  {
  }

  /** Such a parser exists, for either reading of "-0": the decoder and the parser's own pass, keeping only values without
      repeated keys. */
  function ReferenceParse(line: string, keepsSign: bool): Option<Json> {
    match Decode(line)
    case None => None
    case Some(written) =>
      match Reread(written, DEPTH_LIMIT, keepsSign)
      case None => None
      case Some(v) => if DistinctKeys(v) && (Writable(v) ==> Literals(v)) then Some(Canon(v)) else None
  }

  lemma ReferenceIsParser(keepsSign: bool)
    ensures Parser(line => ReferenceParse(line, keepsSign), keepsSign)
  {
    forall v: Json | Literals(v) && DistinctKeys(v)
      ensures ReferenceParse(Encode(v), keepsSign) == Some(Canon(v)) <==> ReadBack(v, keepsSign)
    {
      ReferenceReads(v, keepsSign);
    }
    forall line | ReferenceParse(line, keepsSign).Some? ensures Sound(ReferenceParse(line, keepsSign).value) {
      var v := Reread(Decode(line).value, DEPTH_LIMIT, keepsSign).value;
      CanonForm(v);
      CanonNumbers(v, text => IsInteger(text));
      CanonNumbers(v, text => IsLiteral(text));
    }
  }

  lemma ReferenceReads(v: Json, keepsSign: bool)
    requires Literals(v) && DistinctKeys(v)
    ensures ReferenceParse(Encode(v), keepsSign) == Some(Canon(v)) <==> ReadBack(v, keepsSign)
  {
    CanonicalRoundTrip(v);
    CanonForm(v);
    CanonNumbers(v, text => IsLiteral(text));
    ReferenceOfSorted(Encode(v), Canon(v), keepsSign);
  }

  lemma ReferenceOfSorted(line: string, c: Json, keepsSign: bool)
    requires Decode(line) == Some(c) && Sorted(c) && DistinctKeys(c) && Literals(c)
    ensures ReferenceParse(line, keepsSign) == Some(c) <==> ReadBack(c, keepsSign)
  {
    RereadExactly(c, DEPTH_LIMIT, keepsSign);
    RereadSorted(c, DEPTH_LIMIT, keepsSign);
    SortedCanon(c);
    if Reread(c, DEPTH_LIMIT, keepsSign).Some? { SortedCanon(Reread(c, DEPTH_LIMIT, keepsSign).value); }
  }

  // ----- how many lines a value has

  /** The reader accepts the line and takes it to mean v. */
  ghost predicate LineOf(line: string, v: Json, parse: string -> Option<Json>) {
    AcceptLine(line, parse).Some? && Meaning(AcceptLine(line, parse).value) == Meaning(v)
  }

  lemma CanonicalLine(v: Json, parse: string -> Option<Json>, keepsSign: bool)
    requires Parser(parse, keepsSign) && Literals(v) && DistinctKeys(v) && ReadBack(v, keepsSign)
    ensures LineOf(Encode(v), v, parse)
  {
    CanonForm(v);
    CanonNumbers(v, text => IsLiteral(text));
    AcceptLineExactly(Encode(v), parse, keepsSign, Canon(v));
  }

  /** The line of a value with every zero written in one way. */
  lemma ResignedLine(v: Json, zero: string, parse: string -> Option<Json>, keepsSign: bool)
    requires Parser(parse, keepsSign) && Literals(v) && DistinctKeys(v) && Readable(v, DEPTH_LIMIT)
    requires zero == "0" || (zero == "-0" && keepsSign)
    ensures LineOf(Encode(Resigned(v, zero)), v, parse)
  {
    ResignedKeeps(v, zero);
    ReadableMeaning(v, Resigned(v, zero), DEPTH_LIMIT);
    ResignedZero(v);
    CanonicalLine(Resigned(v, zero), parse, keepsSign);
  }

  lemma LineOfMeaning(line: string, v: Json, parse: string -> Option<Json>, keepsSign: bool) returns (w: Json)
    requires Parser(parse, keepsSign) && LineOf(line, v, parse)
    ensures Canonical(w, keepsSign) && line == Encode(w) && Meaning(w) == Meaning(v)
  {
    w := AcceptLine(line, parse).value;
    AcceptLineExactly(line, parse, keepsSign, w);
  }

  /** A value has an accepted line exactly when it is readable, and no second one exactly when no number in it is zero or
      the parser drops the sign of a zero. */
  lemma LineUniqueExactly(v: Json, parse: string -> Option<Json>, keepsSign: bool)
    requires Parser(parse, keepsSign) && Literals(v) && DistinctKeys(v)
    ensures (exists line :: LineOf(line, v, parse)) <==> Readable(v, DEPTH_LIMIT)
    ensures Readable(v, DEPTH_LIMIT) ==>
              ((forall line, other | LineOf(line, v, parse) && LineOf(other, v, parse) :: line == other)
               <==> Zeroless(v) || !keepsSign)
  {
    if line :| LineOf(line, v, parse) {
      var w := LineOfMeaning(line, v, parse, keepsSign);
      ReadableMeaning(w, v, DEPTH_LIMIT);
    }
    if Readable(v, DEPTH_LIMIT) { ResignedLine(v, "0", parse, keepsSign); }
    if Zeroless(v) || !keepsSign {
      forall line, other | LineOf(line, v, parse) && LineOf(other, v, parse) ensures line == other {
        OneLine(line, other, v, parse, keepsSign);
      }
    } else if Readable(v, DEPTH_LIMIT) {
      TwoLines(v, parse);
    }
  }

  lemma OneLine(line: string, other: string, v: Json, parse: string -> Option<Json>, keepsSign: bool)
    requires Parser(parse, keepsSign) && Literals(v) && DistinctKeys(v) && (Zeroless(v) || !keepsSign)
    requires LineOf(line, v, parse) && LineOf(other, v, parse)
    ensures line == other
  {
    var w := LineOfMeaning(line, v, parse, keepsSign);
    var w' := LineOfMeaning(other, v, parse, keepsSign);
    if keepsSign {
      ZerolessMeaning(v, w);
      ZerolessSignless(w);
      ZerolessMeaning(v, w');
      ZerolessSignless(w');
    }
    MeaningDecides(w, w');
  }

  lemma TwoLines(v: Json, parse: string -> Option<Json>)
    requires Parser(parse, true) && Literals(v) && DistinctKeys(v) && Readable(v, DEPTH_LIMIT) && !Zeroless(v)
    ensures exists line, other | LineOf(line, v, parse) && LineOf(other, v, parse) :: line != other
  {
    var plus, minus := Resigned(v, "0"), Resigned(v, "-0");
    ResignedLine(v, "0", parse, true);
    ResignedLine(v, "-0", parse, true);
    ResignedKeeps(v, "0");
    ResignedKeeps(v, "-0");
    ResignedZero(v);
    CanonicalRoundTrip(plus);
    CanonicalRoundTrip(minus);
    CanonNumbers(plus, text => text != "-0");
    CanonNumbers(minus, text => text != "-0");
    assert LineOf(Encode(plus), v, parse) && LineOf(Encode(minus), v, parse);
  }

  /** What the two readings of "-0" come to: two lines that mean zero, or one. */
  lemma ZeroLines(parse: string -> Option<Json>, keepsSign: bool)
    requires Parser(parse, keepsSign)
    ensures AcceptLine("0", parse) == Some(Num("0")) && Meaning(Num("0")) == Meaning(Num("-0"))
    ensures AcceptLine("-0", parse) == if keepsSign then Some(Num("-0")) else None
  {
    ZeroTexts();
    AcceptLineExactly("0", parse, keepsSign, Num("0"));
    AcceptLineExactly("-0", parse, keepsSign, Num("-0"));
    if AcceptLine("-0", parse).Some? { MinusZeroLine(parse, keepsSign); }
  }

  lemma MinusZeroLine(parse: string -> Option<Json>, keepsSign: bool)
    requires Parser(parse, keepsSign) && AcceptLine("-0", parse).Some?
    ensures AcceptLine("-0", parse) == Some(Num("-0"))
  {
    ZeroTexts();
    var w := AcceptLine("-0", parse).value;
    AcceptLineExactly("-0", parse, keepsSign, w);
    CanonicalRoundTrip(w);
    CanonicalRoundTrip(Num("-0"));
    assert Encode(Num("-0")) == "-0";
  }

  /** An object the writer writes and the reader never returns. */
  function PrivateObject(): Json { Obj([Entry(NUMBER_TOKEN, Str(Characters("5")))]) }

  lemma PrivateNumberHasNoLine(parse: string -> Option<Json>, keepsSign: bool)
    requires Parser(parse, keepsSign)
    ensures Writable(PrivateObject()) && DistinctKeys(PrivateObject()) && AcceptLine(Encode(PrivateObject()), parse).None?
  {
    PrivateUnreadable();
    UnreadableHasNoLine(PrivateObject(), parse, keepsSign);
  }

  lemma PrivateUnreadable()
    ensures Literals(PrivateObject()) && DistinctKeys(PrivateObject()) && Writable(PrivateObject())
    ensures !Readable(PrivateObject(), DEPTH_LIMIT)
  {
    assert PrivateObject().entries[0].key == NUMBER_TOKEN;
    SeqLessIrreflexive(NUMBER_TOKEN);
  }

  lemma UnreadableHasNoLine(v: Json, parse: string -> Option<Json>, keepsSign: bool)
    requires Parser(parse, keepsSign) && Literals(v) && DistinctKeys(v) && !Readable(v, DEPTH_LIMIT)
    ensures AcceptLine(Encode(v), parse).None?
  {
    if AcceptLine(Encode(v), parse).Some? {
      var w := AcceptLine(Encode(v), parse).value;
      AcceptLineExactly(Encode(v), parse, keepsSign, w);
      CanonicalRoundTrip(v);
      CanonicalRoundTrip(w);
      CanonForm(v);
    }
  }

  lemma {:induction false} JoinLinesSnoc(vs: seq<Json>, v: Json)
    ensures JoinLines(vs + [v]) == JoinLines(vs) + (Encode(v) + "\n")
  {
    if vs == [] {
      assert [v][1..] == [];
    } else {
      assert (vs + [v])[1..] == vs[1..] + [v];
      JoinLinesSnoc(vs[1..], v);
    }
  }

  lemma {:induction false} JoinLinesEnd(vs: seq<Json>)
    requires vs != []
    ensures JoinLines(vs) != "" && JoinLines(vs)[|JoinLines(vs)| - 1] == '\n'
  {
    if |vs| > 1 { JoinLinesEnd(vs[1..]); }
  }

  /** Lines that were accepted so far are a prefix of any other reading of the same data. */
  lemma {:induction false} SameReading(vs: seq<Json>, ws: seq<Json>, rest: string, maximum: nat, keepsSign: bool)
    requires GoodLines(vs, maximum, keepsSign) && GoodLines(ws, maximum, keepsSign) && JoinLines(ws) == JoinLines(vs) + rest && rest != ""
    ensures |vs| < |ws| && ws[|vs|..] != [] && JoinLines(ws[|vs|..]) == rest
  {
    if vs == [] {
      assert ws[0..] == ws;
    } else {
      PrintPrintable(vs[0]);
      PrintPrintable(ws[0]);
      FrontLine(vs, rest);
      FrontLine(ws, "");
      assert JoinLines(ws) + "" == JoinLines(ws) && JoinLines(ws[1..]) + "" == JoinLines(ws[1..]);
      SameReading(vs[1..], ws[1..], rest, maximum, keepsSign);
      assert ws[1..][|vs| - 1..] == ws[|vs|..];
    }
  }

  /** What stands before and after the first line end. */
  lemma FrontLine(vs: seq<Json>, rest: string)
    requires vs != [] && Printable(Encode(vs[0]))
    ensures LineEnd(JoinLines(vs) + rest) == |Encode(vs[0])| < |JoinLines(vs) + rest|
    ensures (JoinLines(vs) + rest)[LineEnd(JoinLines(vs) + rest) + 1..] == JoinLines(vs[1..]) + rest
  {
    var line, tail := Encode(vs[0]), JoinLines(vs[1..]) + rest;
    assert JoinLines(vs) + rest == line + "\n" + tail;
    LineEndAt(line, tail);
    assert (line + "\n" + tail)[|line| + 1..] == tail;
  }

  lemma RejectedLine(data: string, result: seq<Json>, rest: string, maximum: nat, parse: string -> Option<Json>, keepsSign: bool)
    requires Parser(parse, keepsSign) && GoodLines(result, maximum, keepsSign) && data == JoinLines(result) + rest && rest != ""
    requires LineEnd(rest) > maximum || AcceptLine(rest[..LineEnd(rest)], parse).None?
    ensures Unreadable(data, maximum, keepsSign)
  {
    forall vs | vs != [] && GoodLines(vs, maximum, keepsSign) ensures data != JoinLines(vs) {
      if data == JoinLines(vs) {
        SameReading(result, vs, rest, maximum, keepsSign);
        var v := vs[|result|];
        assert vs[|result|..][0] == v;
        PrintPrintable(v);
        LineEndAt(Encode(v), JoinLines(vs[|result|..][1..]));
        assert rest[..LineEnd(rest)] == Encode(v);
        AcceptLineExactly(Encode(v), parse, keepsSign, v);
      }
    }
  }
}
