/** Whole receipts, and the line scan that checks a text. */
module RedactionDocument {
  import opened Redaction

  // ---- render_document ----

  /** A JSON-able value; a dictionary keeps insertion order. */
  datatype Json =
    | Scalar(text: string)
    | Str(value: string)
    | List(items: seq<Json>)
    | Dict(entries: seq<Entry>)

  datatype Entry = Entry(key: string, value: Json)

  /** `d[key] = value`: in place when the key is there, at the end otherwise. */
  function Assign(entries: seq<Entry>, key: string, value: Json): seq<Entry> {
    if entries == [] then [Entry(key, value)]
    else if entries[0].key == key then [Entry(key, value)] + entries[1..]
    else [entries[0]] + Assign(entries[1..], key, value)
  }

  function RenderDocument(document: Json, against: seq<Substitution>): Json {
    match document
    case Scalar(_) => document
    case Str(value) => Str(Rendered(value, against))
    case List(items) => List(RenderItems(items, against))
    case Dict(entries) => Dict(RenderEntries(entries, [], against))
  }

  function RenderItems(items: seq<Json>, against: seq<Substitution>): seq<Json> {
    if items == [] then []
    else [RenderDocument(items[0], against)] + RenderItems(items[1..], against)
  }

  /** The dictionary comprehension: keys are rendered too, and a key met twice
      keeps its place and takes the later value. */
  function RenderEntries(entries: seq<Entry>, done: seq<Entry>, against: seq<Substitution>): seq<Entry>
    decreases entries
  {
    if entries == [] then done
    else
      var key := Rendered(entries[0].key, against);
      var value := RenderDocument(entries[0].value, against);
      RenderEntries(entries[1..], Assign(done, key, value), against)
  }

  ghost predicate KeysDistinct(entries: seq<Entry>) {
    forall j, k :: 0 <= j < k < |entries| ==> entries[j].key != entries[k].key
  }

  /** No needle in any string, key or value, at any depth; keys distinct. */
  ghost predicate CleanDocument(document: Json, against: seq<Substitution>) {
    match document
    case Scalar(_) => true
    case Str(value) => Clean(value, against)
    case List(items) => forall k :: 0 <= k < |items| ==> CleanDocument(items[k], against)
    case Dict(entries) =>
      && KeysDistinct(entries)
      && forall k :: 0 <= k < |entries| ==> Clean(entries[k].key, against) && CleanDocument(entries[k].value, against)
  }

  lemma {:induction false} AssignKeepsClean(entries: seq<Entry>, key: string, value: Json, against: seq<Substitution>)
    requires CleanDocument(Dict(entries), against) && Clean(key, against) && CleanDocument(value, against)
    ensures CleanDocument(Dict(Assign(entries, key, value)), against)
    ensures forall e :: e in Assign(entries, key, value) ==>
              e.key == key || exists k :: 0 <= k < |entries| && entries[k].key == e.key
    decreases |entries|
  {
    if entries != [] && entries[0].key != key {
      AssignKeepsClean(entries[1..], key, value, against);
      var rest := Assign(entries[1..], key, value);
      forall k | 0 <= k < |rest| ensures rest[k].key != entries[0].key {
        assert rest[k] in rest;
      }
    }
  }

  /** Every nested key and value of a rendered receipt is free of every needle. */
  lemma {:induction false} RenderDocumentIsClean(document: Json, against: seq<Substitution>)
    requires SafeMap(against)
    ensures CleanDocument(RenderDocument(document, against), against)
    decreases document
  {
    match document
    case Scalar(_) =>
    case Str(value) => RenderedIsClean(value, against);
    case List(items) => RenderItemsClean(items, against);
    case Dict(entries) => RenderEntriesClean(entries, [], against);
  }

  lemma {:induction false} RenderItemsClean(items: seq<Json>, against: seq<Substitution>)
    requires SafeMap(against)
    ensures forall k :: 0 <= k < |RenderItems(items, against)| ==>
              CleanDocument(RenderItems(items, against)[k], against)
    decreases items
  {
    if items != [] {
      RenderDocumentIsClean(items[0], against);
      RenderItemsClean(items[1..], against);
    }
  }

  lemma {:induction false} RenderEntriesClean(entries: seq<Entry>, done: seq<Entry>, against: seq<Substitution>)
    requires SafeMap(against) && CleanDocument(Dict(done), against)
    ensures CleanDocument(Dict(RenderEntries(entries, done, against)), against)
    decreases entries
  {
    if entries != [] {
      var key := Rendered(entries[0].key, against);
      RenderedIsClean(entries[0].key, against);
      RenderDocumentIsClean(entries[0].value, against);
      AssignKeepsClean(done, key, RenderDocument(entries[0].value, against), against);
      RenderEntriesClean(entries[1..], Assign(done, key, RenderDocument(entries[0].value, against)), against);
    }
  }

  lemma {:induction false} AssignNew(entries: seq<Entry>, key: string, value: Json)
    requires forall k :: 0 <= k < |entries| ==> entries[k].key != key
    ensures Assign(entries, key, value) == entries + [Entry(key, value)]
  {
    if entries != [] {
      AssignNew(entries[1..], key, value);
      assert entries == [entries[0]] + entries[1..];
    }
  }

  lemma {:induction false} CleanDocumentIsFixed(document: Json, against: seq<Substitution>)
    requires CleanDocument(document, against)
    ensures RenderDocument(document, against) == document
    decreases document
  {
    match document
    case Scalar(_) =>
    case Str(value) => CleanIsFixed(value, against);
    case List(items) => CleanItemsFixed(items, against);
    case Dict(entries) =>
      CleanEntriesFixed(entries, [], against);
      assert [] + entries == entries;
  }

  lemma {:induction false} CleanItemsFixed(items: seq<Json>, against: seq<Substitution>)
    requires forall k :: 0 <= k < |items| ==> CleanDocument(items[k], against)
    ensures RenderItems(items, against) == items
    decreases items
  {
    if items != [] {
      CleanDocumentIsFixed(items[0], against);
      CleanItemsFixed(items[1..], against);
      assert items == [items[0]] + items[1..];
    }
  }

  lemma {:induction false} CleanEntriesFixed(entries: seq<Entry>, done: seq<Entry>, against: seq<Substitution>)
    requires KeysDistinct(done + entries)
    requires forall k :: 0 <= k < |entries| ==>
               Clean(entries[k].key, against) && CleanDocument(entries[k].value, against)
    ensures RenderEntries(entries, done, against) == done + entries
    decreases entries
  {
    if entries == [] {
      assert done + entries == done;
    } else {
      CleanIsFixed(entries[0].key, against);
      CleanDocumentIsFixed(entries[0].value, against);
      forall k | 0 <= k < |done| ensures done[k].key != entries[0].key {
        assert (done + entries)[k] == done[k] && (done + entries)[|done|] == entries[0];
      }
      AssignNew(done, entries[0].key, entries[0].value);
      assert entries[0] == Entry(entries[0].key, entries[0].value);
      assert done + [entries[0]] + entries[1..] == done + entries;
      CleanEntriesFixed(entries[1..], done + [entries[0]], against);
    }
  }

  /** Rendering a receipt twice is rendering it once. */
  lemma RenderDocumentIsIdempotent(document: Json, against: seq<Substitution>)
    requires SafeMap(against)
    ensures RenderDocument(RenderDocument(document, against), against) == RenderDocument(document, against)
  {
    RenderDocumentIsClean(document, against);
    CleanDocumentIsFixed(RenderDocument(document, against), against);
  }

  // ---- what stands at each place ----

  /** A list keeps its length, and each item is rendered in its place. */
  lemma {:induction false} RenderedItemAt(items: seq<Json>, against: seq<Substitution>, k: nat)
    requires k < |items|
    ensures |RenderItems(items, against)| == |items|
    ensures RenderItems(items, against)[k] == RenderDocument(items[k], against)
    decreases |items|
  {
    if |items| > 1 {
      RenderedItemAt(items[1..], against, if k == 0 then 0 else k - 1);
    }
  }

  ghost predicate HasEntry(entries: seq<Entry>, key: string, value: Json) {
    exists k :: 0 <= k < |entries| && entries[k] == Entry(key, value)
  }

  /** Entry `m` is the last one whose key renders to `key`. */
  ghost predicate LastRenders(entries: seq<Entry>, against: seq<Substitution>, key: string, m: nat) {
    && m < |entries| && Rendered(entries[m].key, against) == key
    && forall j :: m < j < |entries| ==> Rendered(entries[j].key, against) != key
  }

  ghost predicate NoneRenders(entries: seq<Entry>, against: seq<Substitution>, key: string) {
    forall j :: 0 <= j < |entries| ==> Rendered(entries[j].key, against) != key
  }

  predicate HasKey(entries: seq<Entry>, key: string) {
    exists k :: 0 <= k < |entries| && entries[k].key == key
  }

  lemma DistinctCons(first: Entry, rest: seq<Entry>)
    ensures KeysDistinct([first] + rest) <==> !HasKey(rest, first.key) && KeysDistinct(rest)
    ensures forall k :: HasKey([first] + rest, k) <==> k == first.key || HasKey(rest, k)
  {
    var all := [first] + rest;
    assert all[0] == first && forall j :: 0 <= j < |rest| ==> all[j + 1] == rest[j];
    assert forall j :: 0 < j < |all| ==> all[j] == rest[j - 1];
  }

  lemma {:induction false} AssignKeys(entries: seq<Entry>, key: string, value: Json)
    requires KeysDistinct(entries)
    ensures KeysDistinct(Assign(entries, key, value))
    ensures forall k :: HasKey(Assign(entries, key, value), k) <==> k == key || HasKey(entries, k)
    decreases |entries|
  {
    if entries == [] {
      DistinctCons(Entry(key, value), []);
      assert [Entry(key, value)] + [] == Assign(entries, key, value);
    } else {
      var rest := entries[1..];
      assert entries == [entries[0]] + rest;
      DistinctCons(entries[0], rest);
      if entries[0].key == key {
        DistinctCons(Entry(key, value), rest);
      } else {
        AssignKeys(rest, key, value);
        DistinctCons(entries[0], Assign(rest, key, value));
      }
    }
  }

  lemma {:induction false} AssignHas(entries: seq<Entry>, key: string, value: Json, k: string, v: Json)
    requires KeysDistinct(entries)
    ensures HasEntry(Assign(entries, key, value), k, v) <==>
            if k == key then v == value else HasEntry(entries, k, v)
    decreases |entries|
  {
    if entries == [] {
      assert Assign(entries, key, value)[0] == Entry(key, value);
    } else {
      var rest := entries[1..];
      assert entries == [entries[0]] + rest;
      HasCons(entries[0], rest, k, v);
      DistinctCons(entries[0], rest);
      if entries[0].key == key {
        HasCons(Entry(key, value), rest, k, v);
        if HasEntry(rest, key, v) {
          HasEntryKey(rest, key, v);
        }
      } else {
        AssignHas(rest, key, value, k, v);
        HasCons(entries[0], Assign(rest, key, value), k, v);
      }
    }
  }

  lemma HasEntryKey(entries: seq<Entry>, k: string, v: Json)
    requires HasEntry(entries, k, v)
    ensures HasKey(entries, k)
  {
    var j :| 0 <= j < |entries| && entries[j] == Entry(k, v);
    assert entries[j].key == k;
  }

  lemma HasCons(first: Entry, rest: seq<Entry>, k: string, v: Json)
    ensures HasEntry([first] + rest, k, v) <==> first == Entry(k, v) || HasEntry(rest, k, v)
  {
    var all := [first] + rest;
    if HasEntry(rest, k, v) {
      var j :| 0 <= j < |rest| && rest[j] == Entry(k, v);
      assert all[j + 1] == Entry(k, v);
    }
    if first == Entry(k, v) {
      assert all[0] == Entry(k, v);
    }
    if HasEntry(all, k, v) {
      var j :| 0 <= j < |all| && all[j] == Entry(k, v);
      assert j > 0 ==> rest[j - 1] == Entry(k, v);
    }
  }

  lemma LastRendersCons(entries: seq<Entry>, against: seq<Substitution>, key: string, m: nat)
    requires entries != []
    ensures LastRenders(entries, against, key, m + 1) <==> LastRenders(entries[1..], against, key, m)
    ensures LastRenders(entries, against, key, 0) <==>
            Rendered(entries[0].key, against) == key && NoneRenders(entries[1..], against, key)
    ensures NoneRenders(entries, against, key) <==>
            Rendered(entries[0].key, against) != key && NoneRenders(entries[1..], against, key)
  {
    var rest := entries[1..];
    assert forall j :: 0 <= j < |rest| ==> rest[j] == entries[j + 1];
    assert forall j :: 0 < j < |entries| ==> entries[j] == rest[j - 1];
  }

  ghost predicate FromLast(entries: seq<Entry>, against: seq<Substitution>, key: string, value: Json) {
    exists m: nat :: LastRenders(entries, against, key, m) && value == RenderDocument(entries[m].value, against)
  }

  lemma FromLastCons(entries: seq<Entry>, against: seq<Substitution>, key: string, value: Json)
    requires entries != []
    ensures FromLast(entries, against, key, value) <==>
            || FromLast(entries[1..], against, key, value)
            || (&& Rendered(entries[0].key, against) == key && NoneRenders(entries[1..], against, key)
                && value == RenderDocument(entries[0].value, against))
  {
    LastRendersCons(entries, against, key, 0);
    if FromLast(entries, against, key, value) {
      var m: nat :| LastRenders(entries, against, key, m) && value == RenderDocument(entries[m].value, against);
      if m > 0 {
        LastRendersCons(entries, against, key, m - 1);
        assert entries[1..][m - 1] == entries[m];
      }
    }
    if FromLast(entries[1..], against, key, value) {
      var m: nat :| LastRenders(entries[1..], against, key, m)
                    && value == RenderDocument(entries[1..][m].value, against);
      LastRendersCons(entries, against, key, m);
      assert entries[1..][m] == entries[m + 1];
    }
  }

  lemma FromLastExcludes(entries: seq<Entry>, against: seq<Substitution>, key: string, value: Json)
    requires FromLast(entries, against, key, value)
    ensures !NoneRenders(entries, against, key)
  {
  }

  lemma {:induction false} RenderedEntriesAre(entries: seq<Entry>, done: seq<Entry>, against: seq<Substitution>,
                                              key: string, value: Json)
    requires KeysDistinct(done)
    ensures KeysDistinct(RenderEntries(entries, done, against))
    ensures HasEntry(RenderEntries(entries, done, against), key, value) <==>
            || FromLast(entries, against, key, value)
            || (NoneRenders(entries, against, key) && HasEntry(done, key, value))
    decreases |entries|
  {
    if entries != [] {
      var first, shown := Rendered(entries[0].key, against), RenderDocument(entries[0].value, against);
      AssignKeys(done, first, shown);
      AssignHas(done, first, shown, key, value);
      RenderedEntriesAre(entries[1..], Assign(done, first, shown), against, key, value);
      RenderEntriesStep(entries, done, against);
      FromLastCons(entries, against, key, value);
      LastRendersCons(entries, against, key, 0);
    }
  }

  /** A rendered dictionary has each rendered key once, with the rendered value of the
      last entry whose key renders to it, and nothing else. */
  lemma RenderedDictHas(entries: seq<Entry>, against: seq<Substitution>, key: string, value: Json)
    ensures KeysDistinct(RenderDocument(Dict(entries), against).entries)
    ensures HasEntry(RenderDocument(Dict(entries), against).entries, key, value) <==>
            exists m: nat :: && LastRenders(entries, against, key, m)
                             && value == RenderDocument(entries[m].value, against)
  {
    RenderedEntriesAre(entries, [], against, key, value);
  }

  lemma RenderEntriesStep(entries: seq<Entry>, done: seq<Entry>, against: seq<Substitution>)
    requires entries != []
    ensures RenderEntries(entries, done, against) == RenderEntries(entries[1..],
              Assign(done, Rendered(entries[0].key, against), RenderDocument(entries[0].value, against)), against)
  {
  }

  /** A scalar stays, a string is rendered, and a list or a dictionary is what
      `RenderedItemAt` and `RenderedDictHas` say. */
  lemma RenderedShape(document: Json, against: seq<Substitution>)
    ensures var shown := RenderDocument(document, against);
            && (document.Scalar? ==> shown == document)
            && (document.Str? ==> shown == Str(Rendered(document.value, against)))
            && (document.List? ==>
                  && shown.List? && |shown.items| == |document.items|
                  && forall k :: 0 <= k < |document.items| ==>
                       shown.items[k] == RenderDocument(document.items[k], against))
            && (document.Dict? ==> shown.Dict?)
  {
    if document.List? {
      forall k | 0 <= k < |document.items|
        ensures |RenderItems(document.items, against)| == |document.items|
        ensures RenderItems(document.items, against)[k] == RenderDocument(document.items[k], against)
      {
        RenderedItemAt(document.items, against, k);
      }
    }
  }

  // ---- keys that collide ----

  ghost predicate RenderedKeysDistinct(entries: seq<Entry>, against: seq<Substitution>) {
    forall j, k :: 0 <= j < k < |entries| ==> Rendered(entries[j].key, against) != Rendered(entries[k].key, against)
  }

  lemma {:induction false} AssignSize(entries: seq<Entry>, key: string, value: Json)
    ensures |Assign(entries, key, value)|
            == |entries| + if exists k :: 0 <= k < |entries| && entries[k].key == key then 0 else 1
    ensures |entries| <= |Assign(entries, key, value)|
    ensures exists k :: 0 <= k < |Assign(entries, key, value)| && Assign(entries, key, value)[k].key == key
    ensures forall j :: 0 <= j < |entries| ==> Assign(entries, key, value)[j].key == entries[j].key
  {
    if entries != [] && entries[0].key != key {
      var rest := Assign(entries[1..], key, value);
      AssignSize(entries[1..], key, value);
      var k :| 0 <= k < |rest| && rest[k].key == key;
      assert Assign(entries, key, value)[k + 1].key == key;
      if j :| 0 <= j < |entries| && entries[j].key == key {
        assert entries[1..][j - 1].key == key;
      }
      if j :| 0 <= j < |entries[1..]| && entries[1..][j].key == key {
        assert entries[j + 1].key == key;
      }
    } else {
      assert Assign(entries, key, value)[0].key == key;
    }
  }

  ghost predicate Fresh(entries: seq<Entry>, done: seq<Entry>, against: seq<Substitution>) {
    forall j, k :: 0 <= j < |done| && 0 <= k < |entries| ==> done[j].key != Rendered(entries[k].key, against)
  }

  /** Entries are lost exactly when two keys render alike. */
  lemma {:induction false} RenderEntriesSize(entries: seq<Entry>, done: seq<Entry>, against: seq<Substitution>)
    ensures |RenderEntries(entries, done, against)| <= |done| + |entries|
    ensures |RenderEntries(entries, done, against)| == |done| + |entries|
            <==> Fresh(entries, done, against) && RenderedKeysDistinct(entries, against)
    decreases entries
  {
    if entries != [] {
      var key, tail := Rendered(entries[0].key, against), entries[1..];
      var value := RenderDocument(entries[0].value, against);
      var more := Assign(done, key, value);
      AssignSize(done, key, value);
      RenderEntriesSize(tail, more, against);
      if forall k :: 0 <= k < |done| ==> done[k].key != key {
        AssignNew(done, key, value);
        FreshStep(entries, done, more, against);
      }
    }
  }

  lemma FreshStep(entries: seq<Entry>, done: seq<Entry>, more: seq<Entry>, against: seq<Substitution>)
    requires entries != [] &&
             more == done + [Entry(Rendered(entries[0].key, against), RenderDocument(entries[0].value, against))]
    requires forall k :: 0 <= k < |done| ==> done[k].key != Rendered(entries[0].key, against)
    ensures Fresh(entries[1..], more, against) && RenderedKeysDistinct(entries[1..], against)
            <==> Fresh(entries, done, against) && RenderedKeysDistinct(entries, against)
  {
    var tail := entries[1..];
    assert forall k :: 0 <= k < |tail| ==> tail[k] == entries[k + 1];
    assert forall k :: 1 <= k < |entries| ==> entries[k] == tail[k - 1];
    if Fresh(tail, more, against) && RenderedKeysDistinct(tail, against) {
      forall j, k | 0 <= j < |done| && 0 <= k < |entries| ensures done[j].key != Rendered(entries[k].key, against) {
        assert more[j] == done[j];
      }
      forall j, k | 0 <= j < k < |entries|
        ensures Rendered(entries[j].key, against) != Rendered(entries[k].key, against)
      {
        if j == 0 {
          assert more[|done|].key == Rendered(entries[0].key, against);
        } else {
          assert tail[j - 1] == entries[j] && tail[k - 1] == entries[k];
        }
      }
    }
  }

  /** A receipt keeps all its entries exactly when its keys render apart. */
  lemma DictKeepsEntriesIffKeysApart(entries: seq<Entry>, against: seq<Substitution>)
    ensures |RenderDocument(Dict(entries), against).entries| == |entries| <==> RenderedKeysDistinct(entries, against)
  {
    RenderEntriesSize(entries, [], against);
  }

  /** A dictionary with a needle and that needle's placeholder as keys renders to one
      entry: the first key's place and the second key's value. */
  lemma CollidingKeysLoseEntry(against: seq<Substitution>, k: nat, first: Json, second: Json)
    requires SafeMap(against) && LongestFirst(against) && k < |against|
    requires forall j :: 0 <= j < k ==> against[j].needle != against[k].needle
    ensures var Substitution(needle, placeholder) := against[k];
            && needle != placeholder
            && RenderDocument(Dict([Entry(needle, first), Entry(placeholder, second)]), against)
               == Dict([Entry(placeholder, RenderDocument(second, against))])
  {
    var Substitution(needle, placeholder) := against[k];
    NeedleBecomesItsPlaceholder(against, k);
    CleanIsFixed(placeholder, against);
    var entries := [Entry(needle, first), Entry(placeholder, second)];
    var once := [Entry(placeholder, RenderDocument(first, against))];
    assert entries[1..] == [Entry(placeholder, second)] && entries[1..][1..] == [] && once[1..] == [];
    assert Assign([], placeholder, RenderDocument(first, against)) == once;
    assert Assign(once, placeholder, RenderDocument(second, against))
        == [Entry(placeholder, RenderDocument(second, against))];
    RenderEntriesStep(entries, [], against);
    RenderEntriesStep(entries[1..], once, against);
  }

  const HOME := Substitution("/home/a", "<HOME>")

  /** A receipt that keys a map by the home directory and by its placeholder. */
  lemma HomeKeyCollides(first: Json, second: Json)
    ensures SafeMap([HOME])
    ensures |RenderDocument(Dict([Entry("/home/a", first), Entry("<HOME>", second)]), [HOME]).entries| == 1
  {
    forall i ensures !OccursAt("/home/a", "<HOME>", i) {
    }
    assert [HOME][0] == HOME;
    CollidingKeysLoseEntry([HOME], 0, first, second);
  }

  // ---- offences ----

  /** Where `str.splitlines` breaks: LF, VT, FF, CR, FS, GS, RS, NEL, LS, PS. */
  predicate IsBreak(c: char) {
    var code := c as int;
    0xa <= code <= 0xd || 0x1c <= code <= 0x1e || code == 0x85 || 0x2028 <= code <= 0x2029
  }

  datatype Cut = Cut(line: string, sep: string, rest: string)

  /** The first line, its break ("\r\n" is one), and what follows. */
  function FirstLine(text: string): (r: Cut)
    ensures text == r.line + r.sep + r.rest
    ensures forall c :: c in r.line ==> !IsBreak(c)
    ensures forall c :: c in r.sep ==> IsBreak(c)
    ensures r.sep == "" ==> r.rest == ""
  {
    if text == "" then Cut("", "", "")
    else if text[0] == '\r' && |text| > 1 && text[1] == '\n' then Cut("", text[..2], text[2..])
    else if IsBreak(text[0]) then Cut("", text[..1], text[1..])
    else
      var r := FirstLine(text[1..]);
      Cut([text[0]] + r.line, r.sep, r.rest)
  }

  function SplitLines(text: string): seq<string>
    decreases |text|
  {
    if text == "" then []
    else
      var r := FirstLine(text);
      [r.line] + if r.sep == "" then [] else SplitLines(r.rest)
  }

  /** The characters that end a line are these ten. */
  lemma LinesEndAt(c: char)
    ensures |SplitLines("a" + [c] + "b")|
            == if c in "\n\U{b}\U{c}\r\U{1c}\U{1d}\U{1e}\U{85}\U{2028}\U{2029}" then 2 else 1
  {
    TenBreaks(c);
    BreakSplits(c);
  }

  lemma TenBreaks(c: char)
    ensures IsBreak(c) <==> c in "\n\U{b}\U{c}\r\U{1c}\U{1d}\U{1e}\U{85}\U{2028}\U{2029}"
  {
    var breaks := "\n\U{b}\U{c}\r\U{1c}\U{1d}\U{1e}\U{85}\U{2028}\U{2029}";
    assert breaks[0] == '\n' && breaks[1] as int == 0xb && breaks[2] as int == 0xc && breaks[3] == '\r';
    assert breaks[4] as int == 0x1c && breaks[5] as int == 0x1d && breaks[6] as int == 0x1e;
    assert breaks[7] as int == 0x85 && breaks[8] as int == 0x2028 && breaks[9] as int == 0x2029;
  }

  lemma BreakSplits(c: char)
    ensures |SplitLines("a" + [c] + "b")| == if IsBreak(c) then 2 else 1
  {
    var text := "a" + [c] + "b";
    assert text[1..] == [c] + "b" && ([c] + "b")[1..] == "b" && "b"[1..] == "";
    assert FirstLine("") == Cut("", "", "") && FirstLine("b") == Cut("b", "", "");
    assert !IsBreak('a') && text[0] == 'a';
    assert FirstLine([c] + "b") == if IsBreak(c) then Cut("", [c], "b") else Cut([c] + "b", "", "");
  }

  /** One break: a carriage return with its newline, or any other break character. */
  predicate IsSeparator(sep: string, rest: string) {
    sep == "\r\n" || (|sep| == 1 && IsBreak(sep[0]) && !(sep == "\r" && "\n" <= rest))
  }

  lemma {:induction false} FirstLineIs(line: string, sep: string, rest: string)
    requires IsSeparator(sep, rest) && forall k :: 0 <= k < |line| ==> !IsBreak(line[k])
    ensures FirstLine(line + sep + rest) == Cut(line, sep, rest)
    decreases |line|
  {
    var text := line + sep + rest;
    if line == "" {
      assert text == sep + rest;
      assert text[..|sep|] == sep && text[|sep|..] == rest;
    } else {
      assert text[1..] == line[1..] + sep + rest && text[0] == line[0];
      FirstLineIs(line[1..], sep, rest);
      assert [line[0]] + line[1..] == line;
    }
  }

  /** A line, its break and more text are that line and the lines of the text; a break
      at the end starts no further line. */
  lemma LineThenRest(line: string, sep: string, rest: string)
    requires IsSeparator(sep, rest) && forall k :: 0 <= k < |line| ==> !IsBreak(line[k])
    ensures SplitLines(line + sep + rest) == [line] + SplitLines(rest)
  {
    FirstLineIs(line, sep, rest);
    assert line + sep + rest != "";
  }

  predicate OneLine(needle: string) {
    needle != "" && forall c :: c in needle ==> !IsBreak(c)
  }

  ghost predicate InSomeLine(needle: string, lines: seq<string>) {
    exists n :: 0 <= n < |lines| && Occurs(needle, lines[n])
  }

  lemma InSomeLineCons(needle: string, first: string, rest: seq<string>)
    ensures InSomeLine(needle, [first] + rest) <==> Occurs(needle, first) || InSomeLine(needle, rest)
  {
    var lines := [first] + rest;
    if Occurs(needle, first) {
      assert lines[0] == first;
    }
    if n :| 0 <= n < |rest| && Occurs(needle, rest[n]) {
      assert lines[n + 1] == rest[n];
    }
  }

  lemma OccursWiden(needle: string, front: string, middle: string, back: string)
    requires Occurs(needle, middle)
    ensures Occurs(needle, front + middle + back)
  {
    var i :| 0 <= i <= |middle| && OccursAt(needle, middle, i);
    var whole := front + middle + back;
    assert whole[|front| + i..|front| + i + |needle|] == middle[i..i + |needle|];
    assert OccursAt(needle, whole, |front| + i);
  }

  /** A needle that shares no character with a separator is on one side of it. */
  lemma OccursAroundSeparator(needle: string, line: string, sep: string, rest: string)
    requires needle != "" && sep != "" && forall c :: c in sep ==> c !in needle
    ensures Occurs(needle, line + sep + rest) <==> Occurs(needle, line) || Occurs(needle, rest)
  {
    var text := line + sep + rest;
    if Occurs(needle, line) {
      OccursWiden(needle, "", line, sep + rest);
      assert text == "" + line + (sep + rest);
    } else if Occurs(needle, rest) {
      OccursShift(needle, line + sep, rest);
    } else if Occurs(needle, text) {
      var i :| 0 <= i <= |text| && OccursAt(needle, text, i);
      OccurrenceAvoids(needle, line, sep, rest, i);
    }
  }

  lemma OccurrenceAvoids(needle: string, line: string, sep: string, rest: string, i: int)
    requires needle != "" && sep != "" && forall c :: c in sep ==> c !in needle
    requires OccursAt(needle, line + sep + rest, i)
    ensures Occurs(needle, line) || Occurs(needle, rest)
  {
    var text := line + sep + rest;
    if i + |needle| <= |line| {
      assert line[i..i + |needle|] == text[i..i + |needle|];
      assert OccursAt(needle, line, i);
    } else if i >= |line + sep| {
      OccursBehind(needle, line + sep, rest, i);
    } else {
      var k := if i <= |line| then |line| else i;
      assert text[k] == sep[k - |line|] && sep[k - |line|] !in needle;
      OccurrenceChar(needle, text, i, k - i);
    }
  }

  lemma InSomeLineStep(needle: string, text: string)
    requires text != ""
    ensures var r := FirstLine(text);
            InSomeLine(needle, SplitLines(text))
            <==> Occurs(needle, r.line) || (r.sep != "" && InSomeLine(needle, SplitLines(r.rest)))
  {
    var r := FirstLine(text);
    InSomeLineCons(needle, r.line, if r.sep == "" then [] else SplitLines(r.rest));
  }

  /** Scanning line by line finds exactly the one-line needles of the text. */
  lemma {:induction false} LinesCoverText(needle: string, text: string)
    requires OneLine(needle)
    ensures InSomeLine(needle, SplitLines(text)) <==> Occurs(needle, text)
    decreases |text|
  {
    if text == "" {
      assert !OccursAt(needle, text, 0);
    } else {
      var Cut(line, sep, rest) := FirstLine(text);
      InSomeLineStep(needle, text);
      if sep == "" {
        assert line + sep + rest == line;
      } else {
        OccursAroundSeparator(needle, line, sep, rest);
        LinesCoverText(needle, rest);
      }
    }
  }

  lemma PartOfText(needle: string, line: string, sep: string, rest: string)
    requires Occurs(needle, line) || Occurs(needle, rest)
    ensures Occurs(needle, line + sep + rest)
  {
    if Occurs(needle, line) {
      OccursWiden(needle, "", line, sep + rest);
      assert "" + line + (sep + rest) == line + sep + rest;
    } else {
      OccursShift(needle, line + sep, rest);
    }
  }

  /** Whatever is in a line is in the text, so a clean text has no offences. */
  lemma {:induction false} LinesAreParts(needle: string, text: string)
    requires InSomeLine(needle, SplitLines(text))
    ensures Occurs(needle, text)
    decreases |text|
  {
    var Cut(line, sep, rest) := FirstLine(text);
    InSomeLineStep(needle, text);
    if !Occurs(needle, line) {
      LinesAreParts(needle, rest);
    }
    PartOfText(needle, line, sep, rest);
  }

  /** Nothing is reported of a rendered text. */
  lemma RenderedHasNoOffence(value: string, against: seq<Substitution>, k: nat)
    requires SafeMap(against) && k < |against|
    ensures !InSomeLine(against[k].needle, SplitLines(Rendered(value, against)))
  {
    RenderedIsClean(value, against);
    if InSomeLine(against[k].needle, SplitLines(Rendered(value, against))) {
      LinesAreParts(against[k].needle, Rendered(value, against));
    }
  }

  datatype Identifier = Identifier(description: string, pair: Substitution)

  datatype Offence = Offence(line: nat, identifier: Identifier)

  /** Every (line, identifier) that still carries its needle, in report order. */
  method Offences(text: string, identifiers: seq<Identifier>) returns (found: seq<Offence>)
    ensures forall o :: o in found <==>
              && 1 <= o.line <= |SplitLines(text)| && o.identifier in identifiers
              && Occurs(o.identifier.pair.needle, SplitLines(text)[o.line - 1])
    ensures forall j, k :: 0 <= j < k < |found| ==> found[j].line <= found[k].line
  {
    found := [];
    var lines := SplitLines(text);
    for n := 0 to |lines|
      invariant forall o :: o in found <==>
                  && 1 <= o.line <= n && o.identifier in identifiers
                  && Occurs(o.identifier.pair.needle, lines[o.line - 1])
      invariant forall j, k :: 0 <= j < k < |found| ==> found[j].line <= found[k].line
    {
      ghost var before := found;
      for k := 0 to |identifiers|
        invariant forall o :: o in found <==>
                    || o in before
                    || (o.line == n + 1 && o.identifier in identifiers[..k] &&
                        Occurs(o.identifier.pair.needle, lines[n]))
        invariant forall o :: o in found ==> o.line <= n + 1
        invariant forall i, j :: 0 <= i < j < |found| ==> found[i].line <= found[j].line
      {
        assert identifiers[..k + 1] == identifiers[..k] + [identifiers[k]];
        if Occurs(identifiers[k].pair.needle, lines[n]) {
          found := found + [Offence(n + 1, identifiers[k])];
        }
      }
      assert identifiers[..|identifiers|] == identifiers;
    }
  }

  function Pairs(identifiers: seq<Identifier>): seq<Substitution> {
    seq(|identifiers|, k requires 0 <= k < |identifiers| => identifiers[k].pair)
  }

  /** The check and the text agree when no needle spans lines. */
  method Check(text: string, identifiers: seq<Identifier>) returns (found: seq<Offence>)
    requires forall k :: 0 <= k < |identifiers| ==> OneLine(identifiers[k].pair.needle)
    ensures found == [] <==> Clean(text, Pairs(identifiers))
  {
    found := Offences(text, identifiers);
    var lines := SplitLines(text);
    forall k | 0 <= k < |identifiers| {
      LinesCoverText(identifiers[k].pair.needle, text);
    }
    if found != [] {
      assert found[0] in found;
      var k :| 0 <= k < |identifiers| && identifiers[k] == found[0].identifier;
      assert InSomeLine(identifiers[k].pair.needle, lines);
      assert Occurs(Pairs(identifiers)[k].needle, text);
    } else {
      forall k | 0 <= k < |identifiers| ensures !Occurs(Pairs(identifiers)[k].needle, text) {
        forall n | 0 <= n < |lines| ensures !Occurs(identifiers[k].pair.needle, lines[n]) {
          assert Offence(n + 1, identifiers[k]) !in found;
        }
      }
    }
  }

  /** A needle with a line break in it is in the text and in no line. */
  lemma BrokenNeedleIsNeverReported(needle: string, k: nat)
    requires k < |needle| && IsBreak(needle[k])
    ensures Occurs(needle, needle) && !InSomeLine(needle, SplitLines(needle))
  {
    assert OccursAt(needle, needle, 0);
    LinesHaveNoBreak(needle);
    var lines := SplitLines(needle);
    forall n | 0 <= n < |lines| ensures !Occurs(needle, lines[n]) {
      forall i | 0 <= i <= |lines[n]| ensures !OccursAt(needle, lines[n], i) {
        if OccursAt(needle, lines[n], i) {
          assert lines[n][i + k] in lines[n];
          OccurrenceChar(needle, lines[n], i, k);
        }
      }
    }
  }

  lemma {:induction false} LinesHaveNoBreak(text: string)
    ensures forall n, c :: 0 <= n < |SplitLines(text)| && c in SplitLines(text)[n] ==> !IsBreak(c)
    decreases |text|
  {
    if text != "" && FirstLine(text).sep != "" {
      LinesHaveNoBreak(FirstLine(text).rest);
    }
  }
}
