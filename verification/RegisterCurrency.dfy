/** Whether a recorded survivor register still describes the tree in front of it. */
module RegisterCurrency {
  import opened Common
  import opened MutantKeys
  import opened MutantCensus
  import opened TestRegions
  import opened HunkAttribution

  datatype Disposition = Killed | Equivalent | Accepted | Removed
  datatype Entry = Entry(file: string, func: string, disposition: Disposition)

  /** What one attribution looks at. */
  datatype Situation = Situation(
    changed: set<string>, tree: map<string, FileView>,
    run: map<Key, Row>, entries: seq<Entry>, census: Census)

  type Function = (string, string)

  // ---- the items of each file ----

  /** `items` lists the items that the enumeration named in one file. */
  ghost predicate ListsItems(run: map<Key, Row>, keys: set<Key>, path: string, items: seq<Item>)
    requires keys <= run.Keys
  {
    forall x :: x in items <==> exists k :: k in keys && IsItem(run[k], path, x)
  }

  predicate IsItem(row: Row, path: string, x: Item) {
    row.item.Some? && row.group.file == path && x == Item(row.item.value, row.group.func)
  }

  function ItemsIn(spans: map<string, seq<Item>>, path: string): seq<Item> {
    if path in spans then spans[path] else []
  }

  predicate NoRepeats(items: seq<Item>) {
    forall i, j :: 0 <= i < j < |items| ==> items[i] != items[j]
  }

  method ItemSpans(run: map<Key, Row>) returns (spans: map<string, seq<Item>>)
    ensures forall path :: ListsItems(run, run.Keys, path, ItemsIn(spans, path))
    ensures forall path :: NoRepeats(ItemsIn(spans, path))
  {
    spans := map[];
    var todo := run.Keys;
    ghost var done: set<Key> := {};
    while todo != {}
      invariant done + todo == run.Keys
      invariant forall path :: ListsItems(run, done, path, ItemsIn(spans, path))
      invariant forall path :: NoRepeats(ItemsIn(spans, path))
      decreases todo
    {
      ghost var some := SomeMember(todo);
      var k :| k in todo;
      var row := run[k];
      ghost var before := spans;
      if row.item.Some? {
        var item := Item(row.item.value, row.group.func);
        var items := ItemsIn(spans, row.group.file);
        if item !in items {
          items := items + [item];
        }
        spans := spans[row.group.file := items];
      }
      forall path ensures ListsItems(run, done + {k}, path, ItemsIn(spans, path)) {
        ListsNext(run, done, k, path, ItemsIn(before, path), ItemsIn(spans, path));
      }
      forall path ensures NoRepeats(ItemsIn(spans, path)) {
        assert NoRepeats(ItemsIn(before, path));
      }
      done := done + {k};
      todo := todo - {k};
    }
  }

  lemma ListsNext(run: map<Key, Row>, done: set<Key>, k: Key, path: string, before: seq<Item>, items: seq<Item>)
    requires done <= run.Keys && k in run && ListsItems(run, done, path, before)
    requires forall x :: x in items <==> x in before || IsItem(run[k], path, x)
    ensures ListsItems(run, done + {k}, path, items)
  {
    forall x ensures x in items <==> exists j :: j in done + {k} && IsItem(run[j], path, x) {
      if x in before {
        var j :| j in done && IsItem(run[j], path, x);
        assert j in done + {k};
      } else if x in items {
        assert k in done + {k};
      }
    }
  }

  // ---- the rows and the census ----

  predicate Placed(run: map<Key, Row>, f: Function) {
    exists k :: k in run && run[k].group.file == f.0 && run[k].group.func == f.1
  }

  ghost predicate RowEscalates(run: map<Key, Row>, entries: seq<Entry>, e: Escalation) {
    e.RowGone? && !Placed(run, (e.file, e.func)) &&
    exists k :: 0 <= k < |entries| && entries[k].file == e.file && entries[k].func == e.func &&
            entries[k].disposition != Removed
  }

  method CheckRows(run: map<Key, Row>, entries: seq<Entry>) returns (escalations: seq<Escalation>)
    ensures forall e :: e in escalations <==> RowEscalates(run, entries, e)
  {
    var placed := set k | k in run :: (run[k].group.file, run[k].group.func);
    escalations := [];
    for i := 0 to |entries|
      invariant forall e :: e in escalations <==> RowEscalates(run, entries[..i], e)
    {
      var entry := entries[i];
      assert entries[..i + 1] == entries[..i] + [entry];
      RowsNext(run, entries[..i], entry);
      assert (entry.file, entry.func) in placed <==> Placed(run, (entry.file, entry.func));
      if entry.disposition != Removed && (entry.file, entry.func) !in placed {
        escalations := escalations + [RowGone(entry.file, entry.func)];
      }
    }
    assert entries[..|entries|] == entries;
  }

  lemma RowsNext(run: map<Key, Row>, entries: seq<Entry>, entry: Entry)
    ensures forall e :: RowEscalates(run, entries + [entry], e) <==>
              RowEscalates(run, entries, e) || RowEscalates(run, [entry], e)
  {
    var all := entries + [entry];
    forall e ensures RowEscalates(run, all, e) <==> RowEscalates(run, entries, e) || RowEscalates(run, [entry], e) {
      if RowEscalates(run, entries, e) {
        var k :| 0 <= k < |entries| && entries[k].file == e.file && entries[k].func == e.func &&
          entries[k].disposition != Removed;
        assert all[k] == entries[k];
      }
      if RowEscalates(run, [entry], e) {
        assert all[|entries|] == entry;
      }
      if RowEscalates(run, all, e) {
        var k :| 0 <= k < |all| && all[k].file == e.file && all[k].func == e.func && all[k].disposition != Removed;
        assert if k < |entries| then all[k] == entries[k] else all[k] == [entry][0];
      }
    }
  }

  method CheckCensus(run: map<Key, Row>, census: Census, stale: seq<Function>) returns (escalations: seq<Escalation>)
    ensures forall e :: e in escalations <==>
              && e.NeverSeen? && e.key in run && !Covers(census, e.key)
              && (e.key.group.file, e.key.group.func) !in stale
  {
    escalations := [];
    var todo := run.Keys;
    while todo != {}
      invariant todo <= run.Keys
      invariant forall e :: e in escalations <==>
                  && e.NeverSeen? && e.key in run.Keys - todo && !Covers(census, e.key)
                  && (e.key.group.file, e.key.group.func) !in stale
      decreases todo
    {
      ghost var some := SomeMember(todo);
      var k :| k in todo;
      todo := todo - {k};
      if !Covers(census, k) && (k.group.file, k.group.func) !in stale {
        escalations := escalations + [NeverSeen(k)];
      }
    }
  }

  // ---- the whole attribution ----

  ghost predicate ReasonFor(s: Situation, spans: map<string, seq<Item>>, paths: set<string>, r: Reason) {
    r.path in paths && r.path in s.tree && FileReason(r.path, s.tree[r.path], ItemsIn(spans, r.path), r)
  }

  ghost predicate PathEscalates(s: Situation, spans: map<string, seq<Item>>, paths: set<string>, e: Escalation) {
    || (e.NotAFile? && e.path in paths && e.path !in s.tree)
    || ((e.WrongRegion? || e.Unplaced?) && e.path in paths && e.path in s.tree
        && FileEscalates(e.path, s.tree[e.path], ItemsIn(spans, e.path), e))
  }

  function Stale(reasons: seq<Reason>): (r: seq<Function>)
    ensures |r| == |reasons| && forall k :: 0 <= k < |r| ==> r[k] == (reasons[k].path, reasons[k].func)
  {
    seq(|reasons|, k requires 0 <= k < |reasons| => (reasons[k].path, reasons[k].func))
  }

  lemma StaleMembers(reasons: seq<Reason>)
    ensures forall f :: f in Stale(reasons) <==> exists r :: r in reasons && r.path == f.0 && r.func == f.1
  {
    forall f ensures f in Stale(reasons) <==> exists r :: r in reasons && r.path == f.0 && r.func == f.1 {
      if f in Stale(reasons) {
        var k :| 0 <= k < |reasons| && Stale(reasons)[k] == f;
        assert reasons[k] in reasons;
      }
      if r :| r in reasons && r.path == f.0 && r.func == f.1 {
        var k :| 0 <= k < |reasons| && reasons[k] == r;
        assert Stale(reasons)[k] == f;
      }
    }
  }

  method AttributePaths(s: Situation, spans: map<string, seq<Item>>)
    returns (reasons: seq<Reason>, escalations: seq<Escalation>)
    ensures forall r :: r in reasons <==> ReasonFor(s, spans, s.changed, r)
    ensures forall e :: e in escalations <==> PathEscalates(s, spans, s.changed, e)
  {
    reasons, escalations := [], [];
    var todo := s.changed;
    ghost var done: set<string> := {};
    while todo != {}
      invariant done + todo == s.changed
      invariant forall r :: r in reasons <==> ReasonFor(s, spans, done, r)
      invariant forall e :: e in escalations <==> PathEscalates(s, spans, done, e)
      decreases todo
    {
      ghost var some := SomeMember(todo);
      var path :| path in todo;
      if path !in s.tree {
        escalations := escalations + [NotAFile(path)];
      } else {
        var why, more := AttributeFile(path, s.tree[path], ItemsIn(spans, path));
        reasons := reasons + why;
        escalations := escalations + more;
      }
      done := done + {path};
      todo := todo - {path};
    }
    assert done == s.changed;
  }

  class Currency {
    var staleFunctions: seq<Function>
    var reasons: seq<Reason>
    var escalations: seq<Escalation>

    /** A function is only ever called stale together with a reason. */
    ghost predicate Coherent() reads this {
      staleFunctions != [] ==> reasons != []
    }

    /** Adds to the three lists exactly what the rules say. */
    method AttributeHunks(s: Situation) returns (ghost spans: map<string, seq<Item>>, ghost added: seq<Reason>)
      modifies this
      ensures old(Coherent()) ==> Coherent()
      ensures forall path :: ListsItems(s.run, s.run.Keys, path, ItemsIn(spans, path))
      ensures reasons == old(reasons) + added && staleFunctions == old(staleFunctions) + Stale(added)
      ensures forall r :: r in added <==> ReasonFor(s, spans, s.changed, r)
      ensures forall f :: f in staleFunctions <==>
                f in old(staleFunctions) || exists r :: r in added && r.path == f.0 && r.func == f.1
      ensures forall e :: e in escalations <==> e in old(escalations) || Escalates(s, spans, staleFunctions, e)
      ensures old(Coherent()) ==>
                (reasons == [] && escalations == [] <==>
                 old(reasons) == [] && old(escalations) == [] && Untouched(s))
    {
      var items := ItemSpans(s.run);
      var why, more := AttributePaths(s, items);
      spans, added := items, why;
      staleFunctions := staleFunctions + Stale(why);
      reasons := reasons + why;
      StaleMembers(why);
      var gone := CheckRows(s.run, s.entries);
      var unseen := CheckCensus(s.run, s.census, staleFunctions);
      escalations := escalations + (more + gone + unseen);
      if old(reasons) == [] && old(staleFunctions) == [] {
        assert why == [] ==> staleFunctions == [];
        SilentIffUntouched(s, items, why, more + gone + unseen);
      }
    }
  }

  ghost predicate Escalates(s: Situation, spans: map<string, seq<Item>>, stale: seq<Function>, e: Escalation) {
    || PathEscalates(s, spans, s.changed, e)
    || RowEscalates(s.run, s.entries, e)
    || (&& e.NeverSeen? && e.key in s.run && !Covers(s.census, e.key)
        && (e.key.group.file, e.key.group.func) !in stale)
  }

  // ---- what is made stale, and what escalates ----

  /** Reasons name exactly the functions of the enumerated items that a changed hunk of
      their file meets, so exactly those become stale. */
  lemma ReasonIff(s: Situation, spans: map<string, seq<Item>>, path: string, func: string, hunk: Span)
    requires ListsItems(s.run, s.run.Keys, path, ItemsIn(spans, path))
    ensures ReasonFor(s, spans, s.changed, Changed(path, func, hunk)) <==>
            && path in s.changed && path in s.tree && hunk in s.tree[path].hunks
            && exists k :: && k in s.run && s.run[k].group.file == path && s.run[k].group.func == func
                           && s.run[k].item.Some? && Within(hunk, s.run[k].item.value)
  {
    var items := ItemsIn(spans, path);
    if func in Touched(hunk, items) {
      var j :| 0 <= j < |items| && Within(hunk, items[j].span) && items[j].func == func;
      assert items[j] in items;
      var k :| k in s.run.Keys && IsItem(s.run[k], path, items[j]);
      assert s.run[k].group.func == func;
    }
    if k :| && k in s.run && s.run[k].group.file == path && s.run[k].group.func == func
            && s.run[k].item.Some? && Within(hunk, s.run[k].item.value)
    {
      assert IsItem(s.run[k], path, Item(s.run[k].item.value, func));
      assert Item(s.run[k].item.value, func) in items;
    }
  }

  /** A hunk of a present file escalates exactly when it meets no enumerated item and
      lies in no test region that meets none. */
  lemma UnplacedIff(s: Situation, spans: map<string, seq<Item>>, path: string, hunk: Span)
    requires ListsItems(s.run, s.run.Keys, path, ItemsIn(spans, path))
    requires path in s.changed && path in s.tree && hunk in s.tree[path].hunks
    ensures (exists gap :: PathEscalates(s, spans, s.changed, Unplaced(path, hunk, gap))) <==>
            && MeetsNoItem(s.run, path, hunk)
            && forall r :: r in RegionsOf(s.tree[path].lines) && MeetsNoItem(s.run, path, r) ==> !Contains(r, hunk)
  {
    var items, file := ItemsIn(spans, path), s.tree[path];
    forall span ensures Confirmed(items, span) <==> MeetsNoItem(s.run, path, span) {
      ConfirmedMeetsNoItem(s.run, path, items, span);
    }
    var gap := GapExists(items, hunk.start, file.lastLine);
    assert PathEscalates(s, spans, s.changed, Unplaced(path, hunk, gap)) <==>
           Confirmed(items, hunk) && !InConfirmed(items, file, hunk);
  }

  // ---- what silence means ----

  /** No item that the enumeration named in this file shares a line with `span`. */
  ghost predicate MeetsNoItem(run: map<Key, Row>, path: string, span: Span) {
    forall k :: k in run && run[k].item.Some? && run[k].group.file == path ==> !Within(span, run[k].item.value)
  }

  ghost predicate FileUntouched(run: map<Key, Row>, path: string, file: FileView) {
    && (forall r :: r in RegionsOf(file.lines) ==> MeetsNoItem(run, path, r))
    && (forall h :: h in file.hunks ==> exists r :: r in RegionsOf(file.lines) && Contains(r, h))
  }

  /** Every change lies in test code, every row can still be placed, and every
      mutant was seen by the recorded campaign. */
  ghost predicate Untouched(s: Situation) {
    && (forall path :: path in s.changed ==> path in s.tree && FileUntouched(s.run, path, s.tree[path]))
    && (forall k :: 0 <= k < |s.entries| && s.entries[k].disposition != Removed ==>
          exists r :: && r in s.run && s.run[r].group.file == s.entries[k].file
                      && s.run[r].group.func == s.entries[k].func)
    && (forall k :: k in s.run ==> Covers(s.census, k))
  }

  lemma ConfirmedMeetsNoItem(run: map<Key, Row>, path: string, items: seq<Item>, span: Span)
    requires ListsItems(run, run.Keys, path, items)
    ensures Confirmed(items, span) <==> MeetsNoItem(run, path, span)
  {
    forall k | k in run && run[k].item.Some? && run[k].group.file == path
      ensures Item(run[k].item.value, run[k].group.func) in items
    {
      assert IsItem(run[k], path, Item(run[k].item.value, run[k].group.func));
    }
    forall j | 0 <= j < |items|
      ensures exists k :: k in run && run[k].item.Some? && run[k].group.file == path &&
                      run[k].item.value == items[j].span
    {
      assert items[j] in items;
    }
  }

  lemma QuietIsUntouched(run: map<Key, Row>, path: string, items: seq<Item>, file: FileView)
    requires ListsItems(run, run.Keys, path, items)
    ensures Quiet(file, items) <==> FileUntouched(run, path, file)
  {
    forall r ensures Confirmed(items, r) <==> MeetsNoItem(run, path, r) {
      ConfirmedMeetsNoItem(run, path, items, r);
    }
  }

  /** Neither reasons nor escalations, exactly when nothing that matters was touched. */
  lemma SilentIffUntouched(s: Situation, spans: map<string, seq<Item>>,
                           reasons: seq<Reason>, escalations: seq<Escalation>)
    requires forall path :: ListsItems(s.run, s.run.Keys, path, ItemsIn(spans, path))
    requires forall r :: r in reasons <==> ReasonFor(s, spans, s.changed, r)
    requires reasons == [] ==> forall e :: e in escalations <==> Escalates(s, spans, [], e)
    ensures reasons == [] && escalations == [] <==> Untouched(s)
  {
    if reasons == [] && escalations == [] {
      SilenceUntouched(s, spans);
    }
    assert reasons != [] ==> ReasonFor(s, spans, s.changed, reasons[0]);
    assert reasons == [] && escalations != [] ==> Escalates(s, spans, [], escalations[0]);
    if Untouched(s) {
      UntouchedIsSilent(s, spans);
    }
  }

  lemma SilenceUntouched(s: Situation, spans: map<string, seq<Item>>)
    requires forall path :: ListsItems(s.run, s.run.Keys, path, ItemsIn(spans, path))
    requires forall r :: !ReasonFor(s, spans, s.changed, r)
    requires forall e :: !Escalates(s, spans, [], e)
    ensures Untouched(s)
  {
    forall path | path in s.changed ensures path in s.tree && FileUntouched(s.run, path, s.tree[path]) {
      assert !Escalates(s, spans, [], NotAFile(path));
      PathSilence(s, spans, path);
    }
    forall k | 0 <= k < |s.entries| && s.entries[k].disposition != Removed
      ensures Placed(s.run, (s.entries[k].file, s.entries[k].func))
    {
      assert !Escalates(s, spans, [], RowGone(s.entries[k].file, s.entries[k].func));
    }
    forall k | k in s.run ensures Covers(s.census, k) {
      assert !Escalates(s, spans, [], NeverSeen(k));
    }
  }

  lemma PathSilence(s: Situation, spans: map<string, seq<Item>>, path: string)
    requires path in s.changed && path in s.tree && ListsItems(s.run, s.run.Keys, path, ItemsIn(spans, path))
    requires forall r :: !ReasonFor(s, spans, s.changed, r)
    requires forall e :: !Escalates(s, spans, [], e)
    ensures FileUntouched(s.run, path, s.tree[path])
  {
    var items, file := ItemsIn(spans, path), s.tree[path];
    forall r ensures !FileReason(path, file, items, r) {
      assert !ReasonFor(s, spans, s.changed, r);
    }
    forall e ensures !FileEscalates(path, file, items, e) {
      assert !Escalates(s, spans, [], e);
    }
    SilenceIsQuiet(path, file, items);
    QuietIsUntouched(s.run, path, items, file);
  }

  lemma UntouchedIsSilent(s: Situation, spans: map<string, seq<Item>>)
    requires forall path :: ListsItems(s.run, s.run.Keys, path, ItemsIn(spans, path))
    requires Untouched(s)
    ensures forall r :: !ReasonFor(s, spans, s.changed, r)
    ensures forall e :: !Escalates(s, spans, [], e)
  {
    forall path | path in s.changed && path in s.tree
      ensures forall r :: !FileReason(path, s.tree[path], ItemsIn(spans, path), r)
      ensures forall e :: !FileEscalates(path, s.tree[path], ItemsIn(spans, path), e)
    {
      QuietIsUntouched(s.run, path, ItemsIn(spans, path), s.tree[path]);
      QuietGivesNothing(path, s.tree[path], ItemsIn(spans, path));
    }
  }

  /** A register that passes in silence: no changed hunk shares a line with any item
      the enumeration named, and every mutant enumerated now was enumerated by the
      recorded campaign. */
  lemma SilentRegisterIsCurrent(s: Situation, recorded: seq<Row>, now: seq<Row>)
    requires Untouched(s) && IsCensusOf(s.census, Keys(recorded)) && s.run.Keys == Keys(now)
    ensures Keys(now) <= Keys(recorded)
    ensures forall path, h :: path in s.changed && h in s.tree[path].hunks ==> MeetsNoItem(s.run, path, h)
  {
    forall k | k in Keys(now) ensures k in Keys(recorded) {
      assert Covers(s.census, k);
      CoversIsMembership(recorded, s.census, k);
      OccurrencesAreExact(now, k.group, k.occurrence);
    }
    forall path, h | path in s.changed && h in s.tree[path].hunks ensures MeetsNoItem(s.run, path, h) {
      assert FileUntouched(s.run, path, s.tree[path]);
      var r :| r in RegionsOf(s.tree[path].lines) && Contains(r, h);
      assert MeetsNoItem(s.run, path, r);
    }
  }

  // ---- mutants without an item ----

  /** No set of hunks that passes over this file in silence touches the code of the
      mutant: silence protects it. */
  ghost predicate Protected(run: map<Key, Row>, path: string, file: FileView, k: Key)
    requires k in run
  {
    forall hunks: seq<Span> :: FileUntouched(run, path, file.(hunks := hunks)) ==>
      forall h :: h in hunks ==> !Within(h, run[k].mutant)
  }

  ghost predicate RegionsConfirmed(run: map<Key, Row>, path: string, file: FileView) {
    forall r :: r in RegionsOf(file.lines) ==> MeetsNoItem(run, path, r)
  }

  ghost predicate OutsideRegions(file: FileView, span: Span) {
    forall r :: r in RegionsOf(file.lines) ==> !Within(r, span)
  }

  /** Silence protects a mutant exactly when none of the file's regions meets it, or
      when a region meets an item and so nothing passes in silence. */
  lemma ProtectedIff(run: map<Key, Row>, path: string, file: FileView, k: Key)
    requires k in run
    ensures Protected(run, path, file, k) <==>
            OutsideRegions(file, run[k].mutant) || !RegionsConfirmed(run, path, file)
  {
    if Protected(run, path, file, k) && RegionsConfirmed(run, path, file) {
      forall r | r in RegionsOf(file.lines) ensures !Within(r, run[k].mutant) {
        assert Contains(r, r);
        assert FileUntouched(run, path, file.(hunks := [r]));
        assert r in [r];
      }
    }
    if OutsideRegions(file, run[k].mutant) {
      forall hunks: seq<Span>, h | FileUntouched(run, path, file.(hunks := hunks)) && h in hunks
        ensures !Within(h, run[k].mutant)
      {
        var r :| r in RegionsOf(file.lines) && Contains(r, h);
      }
    }
  }

  /** The promise is that a region which holds an enumerated mutant is refused. It is
      kept for all mutants of a file exactly when no believed region meets a mutant
      without an item; a mutant inside its own item is always protected. */
  lemma MutantsProtectedIff(run: map<Key, Row>, path: string, file: FileView)
    requires forall k :: k in run && run[k].item.Some? ==> Contains(run[k].item.value, run[k].mutant)
    ensures (forall k :: k in run && run[k].group.file == path ==> Protected(run, path, file, k)) <==>
            || !RegionsConfirmed(run, path, file)
            || (forall k :: k in run && run[k].group.file == path && run[k].item.None? ==>
                  OutsideRegions(file, run[k].mutant))
  {
    forall k | k in run && run[k].group.file == path
      ensures Protected(run, path, file, k) <==>
              OutsideRegions(file, run[k].mutant) || !RegionsConfirmed(run, path, file)
      ensures RegionsConfirmed(run, path, file) && run[k].item.Some? ==> OutsideRegions(file, run[k].mutant)
    {
      ProtectedIff(run, path, file, k);
      if RegionsConfirmed(run, path, file) && run[k].item.Some? {
        ItemsAreOutside(run, path, file, k);
      }
    }
  }

  lemma ItemsAreOutside(run: map<Key, Row>, path: string, file: FileView, k: Key)
    requires k in run && run[k].group.file == path && run[k].item.Some?
    requires Contains(run[k].item.value, run[k].mutant) && RegionsConfirmed(run, path, file)
    ensures OutsideRegions(file, run[k].mutant)
  {
    forall r | r in RegionsOf(file.lines) ensures !Within(r, run[k].mutant) {
      assert MeetsNoItem(run, path, r);
    }
  }

  // A commented-out test module whose opener the scanner takes for a real one: the
  // region runs on to the brace of a product item and takes in a product constant.
  const LINES := [
    "/*", "#[cfg(test)]", "mod tests {", "*/",
    "const N: usize = 1 + 1;", "pub struct S {", "    x: u32,", "}"]
  const GROUP := Group("lib.rs", "", "BinaryOperator", "-")
  const EDITED := Situation(
    {"lib.rs"}, map["lib.rs" := FileView(LINES, 8, [Span(5, 5)])],
    map[Key(GROUP, 1) := Row(GROUP, 5, 20, None, Span(5, 5))], [],
    map["lib.rs" := map["" := map["BinaryOperator" := map["-" := 1]]]])

  lemma LinesOpen()
    ensures OpensAt(LINES, 1, 2)
  {
    var open := LINES[2];
    assert open[..4] == "mod " && open[|open| - 2..] == " {" && open[4..|open| - 2] == "tests";
    assert IsPlainModule(open);
  }

  lemma LinesScan()
    ensures IsScan(LINES, [Span(2, 8)])
  {
    LinesOpen();
    assert ClosesAt(LINES, 2, 7);
    assert IsModule(LINES, 1, 7) && IsRegion(LINES, Span(2, 8));
    forall i: nat, c: nat | IsModule(LINES, i, c) ensures Accounted([Span(2, 8)], i) {
      assert IsAttribute(LINES[i]);
      assert [Span(2, 8)][0].start <= i + 1 <= [Span(2, 8)][0].end;
    }
  }

  lemma EditedFileUntouched()
    ensures FileUntouched(EDITED.run, "lib.rs", FileView(LINES, 8, [Span(5, 5)]))
  {
    LinesScan();
    ScanIsUnique(LINES, [Span(2, 8)], RegionsOf(LINES));
    assert Span(2, 8) in RegionsOf(LINES) && Contains(Span(2, 8), Span(5, 5));
  }

  lemma EditedIsCovered()
    ensures Covers(EDITED.census, Key(GROUP, 1))
  {
    assert EDITED.census[GROUP.file][GROUP.func][GROUP.genre] == map["-" := 1];
  }

  /** The edit of a product constant passes in silence although its initializer is
      enumerated and changed, because the tool names no item for it. */
  lemma ItemlessMutantIsExcused()
    ensures Untouched(EDITED)
    ensures var k := Key(GROUP, 1);
            && k in EDITED.run && Within(Span(5, 5), EDITED.run[k].mutant)
            && !Protected(EDITED.run, "lib.rs", EDITED.tree["lib.rs"], k)
  {
    EditedFileUntouched();
    EditedIsCovered();
    var file := EDITED.tree["lib.rs"];
    assert file.(hunks := [Span(5, 5)]) == file;
    assert Span(5, 5) in [Span(5, 5)];
  }
}
