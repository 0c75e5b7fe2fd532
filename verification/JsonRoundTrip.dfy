/** Decoding undoes printing, so equal lines mean values equal up to key order. */
module JsonRoundTrip {
  import opened Identities
  import opened JsonText
  import opened CanonicalJson

  /** What may follow a value: anything but a digit, which would extend a number. */
  predicate Closes(rest: string) { rest == "" || !IsDigit(rest[0]) }

  lemma {:induction false} DigitRunStops(digits: string, rest: string)
    requires AllDigits(digits) && Closes(rest)
    ensures DigitRun(digits + rest) == |digits|
  {
    if digits == "" {
      assert digits + rest == rest;
    } else {
      assert (digits + rest)[1..] == digits[1..] + rest;
      DigitRunStops(digits[1..], rest);
    }
  }

  lemma NumberRoundTrip(text: string, rest: string)
    requires IsLiteral(text) && Closes(rest)
    ensures TakeNumber(text + rest) == Some((text, rest))
  {
    var all, sign := text + rest, if text[0] == '-' then 1 else 0;
    var digits := DigitsOf(text);
    assert all[sign..] == digits + rest;
    DigitRunStops(digits, rest);
    assert all[..sign + |digits|] == text && all[sign + |digits|..] == rest;
  }

  lemma PrefixHead(text: string, word: string)
    requires word != ""
    ensures StartsWith(text, word) ==> text[0] == word[0]
  {
    if StartsWith(text, word) { assert text[0] == text[..|word|][0]; }
  }

  lemma ParseNumber(text: string, rest: string)
    requires IsLiteral(text) && Closes(rest)
    ensures ParseValue(text + rest) == Some((Num(text), rest))
  {
    NumberRoundTrip(text, rest);
    var all := text + rest;
    assert all[0] == '-' || IsDigit(all[0]);
    PrefixHead(all, "null");
    PrefixHead(all, "true");
    PrefixHead(all, "false");
  }

  lemma ParseText(s: Text, rest: string)
    ensures ParseValue(EncodeString(s) + rest) == Some((Str(s), rest))
  {
    StringRoundTrip(s, rest);
    Quoted(EncodeBody(s), rest);
  }

  lemma ParseWord(v: Json, rest: string)
    requires v.Null? || v.Bool?
    ensures ParseValue(Print(v) + rest) == Some((v, rest))
  {
    var word := Print(v);
    Split(word, rest);
    var all := word + rest;
    assert all[0] == word[0];
    PrefixHead(all, "null");
    PrefixHead(all, "true");
  }

  lemma PrintStart(v: Json)
    requires Literals(v)
    ensures Print(v) != "" && Print(v)[0] != ']' && Print(v)[0] != '}'
  {
  }

  function JoinRest(parts: seq<string>): string
    requires parts != []
  {
    if |parts| == 1 then "" else "," + Join(parts[1..])
  }

  /** A joined list read from its front. */
  lemma {:induction false} JoinFront(parts: seq<string>)
    requires parts != []
    ensures Join(parts) == parts[0] + JoinRest(parts)
  {
    var n := |parts| - 1;
    if n == 1 {
      assert parts[..1] == [parts[0]] && parts[1..] == [parts[1]];
    } else if n > 1 {
      var middle := parts[1..n];
      JoinFront(parts[..n]);
      assert parts[..n][1..] == middle && parts[..n][0] == parts[0];
      JoinLast(parts[..n], parts[n], parts);
      JoinLast(middle, parts[n], parts[1..]);
      Reassociate(parts[0], Join(middle), parts[n]);
    }
  }

  lemma JoinLast(rest: seq<string>, last: string, all: seq<string>)
    requires rest != [] && all == rest + [last]
    ensures Join(all) == Join(rest) + "," + last
  {
    assert all[..|rest|] == rest;
  }

  lemma Reassociate(a: string, b: string, c: string)
    ensures (a + ("," + b)) + "," + c == a + ("," + (b + "," + c))
  {
  }

  lemma ItemsTail(items: seq<Json>)
    requires items != []
    ensures PrintItems(items)[0] == Print(items[0]) && PrintItems(items)[1..] == PrintItems(items[1..])
  {
    PrintItemsAt(items, 0);
    forall i | 0 <= i < |items| - 1 ensures PrintItems(items)[1..][i] == PrintItems(items[1..])[i] {
      PrintItemsAt(items, i + 1);
      PrintItemsAt(items[1..], i);
    }
  }

  lemma EntriesTail(es: seq<Entry>)
    requires es != []
    ensures PrintEntries(es)[0] == PrintEntry(es[0]) && PrintEntries(es)[1..] == PrintEntries(es[1..])
  {
    PrintEntriesAt(es, 0);
    forall i | 0 <= i < |es| - 1 ensures PrintEntries(es)[1..][i] == PrintEntries(es[1..])[i] {
      PrintEntriesAt(es, i + 1);
      PrintEntriesAt(es[1..], i);
    }
  }

  // ----- one step of the list parsers

  lemma LastItem(text: string, item: Json, rest: string)
    requires ParseValue(text) == Some((item, "]" + rest))
    ensures ParseItems(text) == Some(([item], rest))
  {
    assert ("]" + rest)[1..] == rest;
  }

  lemma MoreItems(text: string, item: Json, tail: string, more: seq<Json>, rest: string)
    requires ParseValue(text) == Some((item, "," + tail)) && ParseItems(tail) == Some((more, rest))
    ensures ParseItems(text) == Some(([item] + more, rest))
  {
    assert ("," + tail)[1..] == tail;
  }

  lemma LastEntry(text: string, e: Entry, rest: string)
    requires ParseEntry(text) == Some((e, "}" + rest))
    ensures ParseEntries(text) == Some(([e], rest))
  {
    assert ("}" + rest)[1..] == rest;
  }

  lemma MoreEntries(text: string, e: Entry, tail: string, more: seq<Entry>, rest: string)
    requires ParseEntry(text) == Some((e, "," + tail)) && ParseEntries(tail) == Some((more, rest))
    ensures ParseEntries(text) == Some(([e] + more, rest))
  {
    assert ("," + tail)[1..] == tail;
  }

  lemma ParseArray(body: string, items: seq<Json>, rest: string)
    requires body != "" && body[0] != ']' && ParseItems(body) == Some((items, rest))
    ensures ParseValue("[" + body) == Some((Arr(items), rest))
  {
    assert ("[" + body)[1..] == body;
    PrefixHead(body, "]");
  }

  lemma ParseObject(body: string, es: seq<Entry>, rest: string)
    requires body != "" && body[0] != '}' && ParseEntries(body) == Some((es, rest))
    ensures ParseValue("{" + body) == Some((Obj(es), rest))
  {
    assert ("{" + body)[1..] == body;
    PrefixHead(body, "}");
  }

  lemma ParseEmpty(rest: string)
    ensures ParseValue("[]" + rest) == Some((Arr([]), rest))
    ensures ParseValue("{}" + rest) == Some((Obj([]), rest))
  {
    var list, record := "[]" + rest, "{}" + rest;
    assert list[1..] == "]" + rest && list[1..][..1] == "]" && list[2..] == rest;
    assert record[1..] == "}" + rest && record[1..][..1] == "}" && record[2..] == rest;
  }

  // ----- the round trip

  /** Decoding a printed value gives the value back and leaves what follows it. */
  lemma {:induction false} ValueRoundTrip(v: Json, rest: string)
    requires Literals(v) && Closes(rest)
    ensures ParseValue(Print(v) + rest) == Some((v, rest))
    decreases v, 1
  {
    match v
    case Num(text) => ParseNumber(text, rest);
    case Str(s) => ParseText(s, rest);
    case Arr(items) =>
      if items == [] {
        ParseEmpty(rest);
        assert Print(v) == "[]";
      } else {
        ItemsRoundTrip(items, rest);
        PrintStart(items[0]);
        PrintItemsAt(items, 0);
        JoinStart(PrintItems(items), "]", rest);
        ParseArray(Join(PrintItems(items)) + "]" + rest, items, rest);
        Rejoined("[", Join(PrintItems(items)), "]", rest);
      }
    case Obj(entries) =>
      if entries == [] {
        ParseEmpty(rest);
        assert Print(v) == "{}";
      } else {
        EntriesRoundTrip(entries, rest);
        PrintEntriesAt(entries, 0);
        JoinStart(PrintEntries(entries), "}", rest);
        ParseObject(Join(PrintEntries(entries)) + "}" + rest, entries, rest);
        Rejoined("{", Join(PrintEntries(entries)), "}", rest);
      }
    case _ => ParseWord(v, rest);
  }

  lemma JoinStart(parts: seq<string>, end: string, rest: string)
    requires parts != [] && parts[0] != ""
    ensures (var body := Join(parts) + end + rest; body != "" && body[0] == parts[0][0])
  {
    JoinFront(parts);
  }

  lemma {:induction false} ItemsRoundTrip(items: seq<Json>, rest: string)
    requires items != [] && forall i | 0 <= i < |items| :: Literals(items[i])
    ensures ParseItems(Join(PrintItems(items)) + "]" + rest) == Some((items, rest))
    decreases items, 0
  {
    var parts := PrintItems(items);
    var first, after := parts[0], JoinRest(parts);
    JoinFront(parts);
    ItemsTail(items);
    Rejoined(first, after, "]", rest);
    if |items| == 1 {
      assert after + "]" + rest == "]" + rest;
      ValueRoundTrip(items[0], "]" + rest);
      LastItem(first + ("]" + rest), items[0], rest);
      assert items == [items[0]];
    } else {
      var tail := Join(PrintItems(items[1..])) + "]" + rest;
      assert after + "]" + rest == "," + tail;
      ItemsRoundTrip(items[1..], rest);
      ValueRoundTrip(items[0], "," + tail);
      MoreItems(first + ("," + tail), items[0], tail, items[1..], rest);
      assert items == [items[0]] + items[1..];
    }
  }

  lemma {:induction false} EntryRoundTrip(e: Entry, rest: string)
    requires Literals(e.value) && Closes(rest)
    ensures ParseEntry(PrintEntry(e) + rest) == Some((e, rest))
    decreases e, 0
  {
    var tail := ":" + (Print(e.value) + rest);
    StringRoundTrip(e.key, tail);
    ValueRoundTrip(e.value, rest);
    EntryText(EncodeString(e.key), Print(e.value), rest);
    OneEntry(EncodeString(e.key) + tail, e, Print(e.value) + rest, rest);
  }

  lemma EntryText(key: string, value: string, rest: string)
    ensures key + ":" + value + rest == key + (":" + (value + rest))
  {
  }

  lemma OneEntry(text: string, e: Entry, tail: string, rest: string)
    requires TakeString(text) == Some((e.key, ":" + tail)) && ParseValue(tail) == Some((e.value, rest))
    ensures ParseEntry(text) == Some((e, rest))
  {
    assert (":" + tail)[1..] == tail;
  }

  lemma {:induction false} EntriesRoundTrip(es: seq<Entry>, rest: string)
    requires es != [] && forall i | 0 <= i < |es| :: Literals(es[i].value)
    ensures ParseEntries(Join(PrintEntries(es)) + "}" + rest) == Some((es, rest))
    decreases es, 0
  {
    var parts := PrintEntries(es);
    var first, after := parts[0], JoinRest(parts);
    JoinFront(parts);
    EntriesTail(es);
    Rejoined(first, after, "}", rest);
    if |es| == 1 {
      assert after + "}" + rest == "}" + rest;
      EntryRoundTrip(es[0], "}" + rest);
      LastEntry(first + ("}" + rest), es[0], rest);
      assert es == [es[0]];
    } else {
      var tail := Join(PrintEntries(es[1..])) + "}" + rest;
      assert after + "}" + rest == "," + tail;
      EntriesRoundTrip(es[1..], rest);
      EntryRoundTrip(es[0], "," + tail);
      MoreEntries(first + ("," + tail), es[0], tail, es[1..], rest);
      assert es == [es[0]] + es[1..];
    }
  }

  /** Decoding a canonical line gives the value with its keys sorted. */
  lemma CanonicalRoundTrip(v: Json)
    requires Literals(v)
    ensures Decode(Encode(v)) == Some(Canon(v))
  {
    CanonNumbers(v, text => IsLiteral(text));
    ValueRoundTrip(Canon(v), "");
    assert Print(Canon(v)) + "" == Print(Canon(v));
  }
}
