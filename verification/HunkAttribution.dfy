/** Attributing the changed hunks of one file: to the enumerated items they touch,
    to test code, or to neither, which escalates. */
module HunkAttribution {
  import opened MutantKeys
  import opened TestRegions

  /** An enumerated item: its lines and its function. */
  datatype Item = Item(span: Span, func: string)

  /** A file at the judged commit; hunks are new-side line ranges. */
  datatype FileView = FileView(lines: seq<string>, lastLine: int, hunks: seq<Span>)

  datatype Reason = Changed(path: string, func: string, hunk: Span)

  datatype Escalation =
    | NotAFile(path: string)
    | WrongRegion(path: string, region: Span)
    | Unplaced(path: string, hunk: Span, gap: Span)
    | RowGone(file: string, func: string)
    | NeverSeen(key: Key)

  // ---- one hunk ----

  predicate Within(a: Span, b: Span) {
    a.start <= b.end && b.start <= a.end
  }

  predicate Contains(outer: Span, inner: Span) {
    outer.start <= inner.start && inner.end <= outer.end
  }

  /** Two spans meet exactly when they share a line. */
  lemma WithinSharesLine(a: Span, b: Span)
    requires a.start <= a.end && b.start <= b.end
    ensures Within(a, b) <==> exists line: int :: InSpan(line, a) && InSpan(line, b)
  {
    var line := if a.start >= b.start then a.start else b.start;
    assert Within(a, b) ==> InSpan(line, a) && InSpan(line, b);
  }

  predicate InSpan(line: int, span: Span) {
    span.start <= line <= span.end
  }

  /** One span contains another exactly when it has all its lines. */
  lemma ContainsAllLines(outer: Span, inner: Span)
    requires inner.start <= inner.end
    ensures Contains(outer, inner) <==> forall line: int :: InSpan(line, inner) ==> InSpan(line, outer)
  {
    if forall line: int :: InSpan(line, inner) ==> InSpan(line, outer) {
      assert InSpan(inner.start, inner) && InSpan(inner.end, inner);
    }
  }

  /** A region is believed only when it meets no enumerated item. */
  predicate Confirmed(items: seq<Item>, region: Span) {
    forall k :: 0 <= k < |items| ==> !Within(region, items[k].span)
  }

  datatype Rule = Touches(funcs: seq<string>) | TestCode | Nowhere

  function Touched(hunk: Span, items: seq<Item>): (r: seq<string>)
    ensures forall f :: f in r <==> exists k :: 0 <= k < |items| && Within(hunk, items[k].span) && items[k].func == f
    ensures r == [] <==> Confirmed(items, hunk)
  {
    if items == [] then []
    else
      var rest := Touched(hunk, items[1..]);
      assert forall k :: 0 < k < |items| ==> items[k] == items[1..][k - 1];
      if Within(hunk, items[0].span) then [items[0].func] + rest else rest
  }

  predicate InTestCode(hunk: Span, regions: seq<Span>) {
    exists k :: 0 <= k < |regions| && Contains(regions[k], hunk)
  }

  function HunkRule(hunk: Span, items: seq<Item>, regions: seq<Span>): Rule {
    var touched := Touched(hunk, items);
    if touched != [] then Touches(touched)
    else if InTestCode(hunk, regions) then TestCode
    else Nowhere
  }

  /** The same two questions, asked the other way round. */
  function HunkRuleSwapped(hunk: Span, items: seq<Item>, regions: seq<Span>): Rule {
    var touched := Touched(hunk, items);
    if InTestCode(hunk, regions) then TestCode
    else if touched != [] then Touches(touched)
    else Nowhere
  }

  predicate AllConfirmed(items: seq<Item>, regions: seq<Span>) {
    forall k :: 0 <= k < |regions| ==> Confirmed(items, regions[k])
  }

  /** On confirmed regions a hunk in test code touches no item, whichever line of
      the hunk comes first. */
  lemma TestCodeTouchesNothing(hunk: Span, items: seq<Item>, regions: seq<Span>)
    requires AllConfirmed(items, regions) && InTestCode(hunk, regions)
    ensures Confirmed(items, hunk)
  {
    var r :| 0 <= r < |regions| && Contains(regions[r], hunk);
    forall k | 0 <= k < |items| ensures !Within(hunk, items[k].span) {
      assert !Within(regions[r], items[k].span);
    }
  }

  /** Swapping the questions never changes the answer exactly when no hunk both
      touches an item and lies in a region; confirmed regions ensure it. */
  lemma OrderDoesNotMatter(hunk: Span, items: seq<Item>, regions: seq<Span>)
    ensures HunkRule(hunk, items, regions) == HunkRuleSwapped(hunk, items, regions)
            <==> Confirmed(items, hunk) || !InTestCode(hunk, regions)
    ensures AllConfirmed(items, regions) ==> HunkRule(hunk, items, regions) == HunkRuleSwapped(hunk, items, regions)
  {
    if AllConfirmed(items, regions) && InTestCode(hunk, regions) {
      TestCodeTouchesNothing(hunk, items, regions);
    }
  }

  // ---- the gap around a line ----

  /** `first` is the first line after every item that ends before `line`. */
  ghost predicate GapStarts(items: seq<Item>, line: int, first: int) {
    && first >= 1
    && (forall k :: 0 <= k < |items| && items[k].span.end < line ==> items[k].span.end < first)
    && (first == 1 || exists k :: 0 <= k < |items| && items[k].span.end < line && items[k].span.end + 1 == first)
  }

  /** `last` is the last line before every item that starts after `line`. */
  ghost predicate GapEnds(items: seq<Item>, line: int, lastLine: int, last: int) {
    && last <= lastLine
    && (forall k :: 0 <= k < |items| && items[k].span.end >= line && items[k].span.start > line ==>
          last < items[k].span.start)
    && (last == lastLine || exists k :: 0 <= k < |items| && items[k].span.end >= line
                              && items[k].span.start > line && items[k].span.start - 1 == last)
  }

  ghost predicate IsGap(items: seq<Item>, line: int, lastLine: int, gap: Span) {
    GapStarts(items, line, gap.start) && GapEnds(items, line, lastLine, gap.end)
  }

  method GapOf(items: seq<Item>, line: int, lastLine: int) returns (gap: Span)
    ensures IsGap(items, line, lastLine, gap)
    ensures forall other :: IsGap(items, line, lastLine, other) ==> other == gap
  {
    var start, end := 1, lastLine;
    assert items[..0] == [];
    for k := 0 to |items|
      invariant GapStarts(items[..k], line, start)
      invariant GapEnds(items[..k], line, lastLine, end)
    {
      var span := items[k].span;
      ghost var was, be := items[..k], items[..k + 1];
      assert be == was + [items[k]] && be[k] == items[k];
      ghost var oldStart, oldEnd := start, end;
      if span.end < line {
        start := if span.end + 1 > start then span.end + 1 else start;
      } else if span.start > line {
        end := if span.start - 1 < end then span.start - 1 else end;
      }
      GapNext(was, items[k], line, lastLine, oldStart, oldEnd, start, end);
    }
    assert items[..|items|] == items;
    gap := Span(start, end);
  }

  lemma GapNext(items: seq<Item>, item: Item, line: int, lastLine: int,
                start: int, end: int, nextStart: int, nextEnd: int)
    requires GapStarts(items, line, start) && GapEnds(items, line, lastLine, end)
    requires nextStart == if item.span.end < line && item.span.end + 1 > start then item.span.end + 1 else start
    requires nextEnd == if item.span.end >= line && item.span.start > line && item.span.start - 1 < end
                        then item.span.start - 1 else end
    ensures GapStarts(items + [item], line, nextStart) && GapEnds(items + [item], line, lastLine, nextEnd)
  {
    var all := items + [item];
    assert all[|items|] == item;
    assert forall k :: 0 <= k < |items| ==> all[k] == items[k];
  }

  /** A line in no item is in its gap, and the gap meets no item: widening a mutant
      to its gap can only take in too much. */
  lemma GapHoldsLine(items: seq<Item>, line: int, lastLine: int, gap: Span)
    requires IsGap(items, line, lastLine, gap) && 1 <= line <= lastLine
    ensures gap.start <= line <= gap.end
    ensures forall k :: 0 <= k < |items| ==>
              (items[k].span.start <= line <= items[k].span.end || !Within(gap, items[k].span))
  {
  }

  // ---- one file ----

  ghost function RegionsOf(lines: seq<string>): seq<Span> {
    if exists r :: IsScan(lines, r) then var r :| IsScan(lines, r); r else []
  }

  /** The escalations one present file gives rise to. */
  ghost predicate FileEscalates(path: string, file: FileView, items: seq<Item>, e: Escalation) {
    match e
    case WrongRegion(p, region) => p == path && region in RegionsOf(file.lines) && !Confirmed(items, region)
    case Unplaced(p, hunk, gap) =>
      && p == path && hunk in file.hunks && Confirmed(items, hunk)
      && !InConfirmed(items, file, hunk)
      && IsGap(items, hunk.start, file.lastLine, gap)
    case _ => false
  }

  /** The hunk lies wholly inside a test region that meets no item. */
  ghost predicate InConfirmed(items: seq<Item>, file: FileView, hunk: Span) {
    exists r :: r in RegionsOf(file.lines) && Confirmed(items, r) && Contains(r, hunk)
  }

  ghost predicate FileReason(path: string, file: FileView, items: seq<Item>, r: Reason) {
    r.path == path && r.hunk in file.hunks && r.func in Touched(r.hunk, items)
  }

  method ConfirmRegions(path: string, file: FileView, items: seq<Item>)
    returns (confirmed: seq<Span>, escalations: seq<Escalation>)
    ensures AllConfirmed(items, confirmed)
    ensures forall r :: r in confirmed <==> r in RegionsOf(file.lines) && Confirmed(items, r)
    ensures forall e :: e in escalations <==> e.WrongRegion? && FileEscalates(path, file, items, e)
  {
    var regions := CfgTestRegions(file.lines);
    ScanIsUnique(file.lines, regions, RegionsOf(file.lines));
    confirmed, escalations := [], [];
    for k := 0 to |regions|
      invariant AllConfirmed(items, confirmed)
      invariant forall r :: r in confirmed <==> r in regions[..k] && Confirmed(items, r)
      invariant forall e :: e in escalations <==>
                  e.WrongRegion? && e.path == path && e.region in regions[..k] && !Confirmed(items, e.region)
    {
      var region := regions[k];
      assert regions[..k + 1] == regions[..k] + [region];
      if Confirmed(items, region) {
        confirmed := confirmed + [region];
      } else {
        escalations := escalations + [WrongRegion(path, region)];
      }
    }
    assert regions[..|regions|] == regions;
  }

  lemma InConfirmedIsTestCode(items: seq<Item>, file: FileView, confirmed: seq<Span>, hunk: Span)
    requires forall r :: r in confirmed <==> r in RegionsOf(file.lines) && Confirmed(items, r)
    ensures InTestCode(hunk, confirmed) <==> InConfirmed(items, file, hunk)
  {
    if InTestCode(hunk, confirmed) {
      var k :| 0 <= k < |confirmed| && Contains(confirmed[k], hunk);
      assert confirmed[k] in confirmed;
    }
    if InConfirmed(items, file, hunk) {
      var r :| r in RegionsOf(file.lines) && Confirmed(items, r) && Contains(r, hunk);
      assert r in confirmed;
    }
  }

  function ReasonsFor(path: string, hunk: Span, funcs: seq<string>): (r: seq<Reason>)
    ensures |r| == |funcs| && forall k :: 0 <= k < |r| ==> r[k] == Changed(path, funcs[k], hunk)
  {
    seq(|funcs|, k requires 0 <= k < |funcs| => Changed(path, funcs[k], hunk))
  }

  /** What one hunk gives rise to: a reason for each function it touches, or an
      escalation, or nothing because it is test code. */
  method AttributeHunk(path: string, file: FileView, items: seq<Item>, confirmed: seq<Span>, hunk: Span)
    returns (reasons: seq<Reason>, escalations: seq<Escalation>)
    requires AllConfirmed(items, confirmed)
    requires forall r :: r in confirmed <==> r in RegionsOf(file.lines) && Confirmed(items, r)
    ensures forall r :: r in reasons <==> FileReason(path, file.(hunks := [hunk]), items, r)
    ensures forall e :: e in escalations <==> e.Unplaced? && FileEscalates(path, file.(hunks := [hunk]), items, e)
  {
    reasons, escalations := [], [];
    InConfirmedIsTestCode(items, file.(hunks := [hunk]), confirmed, hunk);
    match HunkRule(hunk, items, confirmed)
    case TestCode =>
      TestCodeTouchesNothing(hunk, items, confirmed);
    case Touches(funcs) =>
      reasons := ReasonsFor(path, hunk, funcs);
      assert forall r :: r in reasons ==> exists k :: 0 <= k < |reasons| && reasons[k] == r;
      forall r | FileReason(path, file.(hunks := [hunk]), items, r) ensures r in reasons {
        var k :| 0 <= k < |funcs| && funcs[k] == r.func;
        assert reasons[k] == r;
      }
    case Nowhere =>
      var gap := GapOf(items, hunk.start, file.lastLine);
      escalations := [Unplaced(path, hunk, gap)];
  }

  /** One changed file: what its hunks make stale, and what escalates. */
  method AttributeFile(path: string, file: FileView, items: seq<Item>)
    returns (reasons: seq<Reason>, escalations: seq<Escalation>)
    ensures forall r :: r in reasons <==> FileReason(path, file, items, r)
    ensures forall e :: e in escalations <==> FileEscalates(path, file, items, e)
  {
    var confirmed, wrong := ConfirmRegions(path, file, items);
    reasons := [];
    var unplaced: seq<Escalation> := [];
    for k := 0 to |file.hunks|
      invariant forall r :: r in reasons <==> FileReason(path, file.(hunks := file.hunks[..k]), items, r)
      invariant forall e :: e in unplaced <==>
                  e.Unplaced? && FileEscalates(path, file.(hunks := file.hunks[..k]), items, e)
    {
      assert file.hunks[..k + 1] == file.hunks[..k] + [file.hunks[k]];
      var moreReasons, more := AttributeHunk(path, file, items, confirmed, file.hunks[k]);
      HunksAdd(path, file, items, file.hunks[..k], file.hunks[k]);
      reasons, unplaced := reasons + moreReasons, unplaced + more;
    }
    assert file.(hunks := file.hunks[..|file.hunks|]) == file;
    escalations := wrong + unplaced;
  }

  /** Hunks are judged one by one. */
  lemma HunksAdd(path: string, file: FileView, items: seq<Item>, hunks: seq<Span>, hunk: Span)
    ensures forall r :: FileReason(path, file.(hunks := hunks + [hunk]), items, r) <==>
              FileReason(path, file.(hunks := hunks), items, r) || FileReason(path, file.(hunks := [hunk]), items, r)
    ensures forall e: Escalation :: e.Unplaced? ==>
              (FileEscalates(path, file.(hunks := hunks + [hunk]), items, e) <==>
               FileEscalates(path, file.(hunks := hunks), items, e) ||
               FileEscalates(path, file.(hunks := [hunk]), items, e))
  {
  }

  lemma {:induction false} GapExists(items: seq<Item>, line: int, lastLine: int) returns (gap: Span)
    ensures IsGap(items, line, lastLine, gap)
  {
    if items == [] {
      return Span(1, lastLine);
    }
    var item := items[|items| - 1];
    var before := items[..|items| - 1];
    var was := GapExists(before, line, lastLine);
    gap := Span(
      if item.span.end < line && item.span.end + 1 > was.start then item.span.end + 1 else was.start,
      if item.span.end >= line && item.span.start > line && item.span.start - 1 < was.end
      then item.span.start - 1 else was.end);
    GapNext(before, item, line, lastLine, was.start, was.end, gap.start, gap.end);
    assert before + [item] == items;
  }

  /** A file that gives rise to nothing: all its test regions are confirmed, and
      every hunk lies wholly inside one. */
  ghost predicate Quiet(file: FileView, items: seq<Item>) {
    && (forall r :: r in RegionsOf(file.lines) ==> Confirmed(items, r))
    && (forall h :: h in file.hunks ==> exists r :: r in RegionsOf(file.lines) && Contains(r, h))
  }

  lemma QuietGivesNothing(path: string, file: FileView, items: seq<Item>)
    requires Quiet(file, items)
    ensures forall r :: !FileReason(path, file, items, r)
    ensures forall e :: !FileEscalates(path, file, items, e)
  {
    forall h | h in file.hunks ensures Confirmed(items, h) && InConfirmed(items, file, h) {
      var r :| r in RegionsOf(file.lines) && Contains(r, h);
      assert Contains([r][0], h) && InTestCode(h, [r]);
      TestCodeTouchesNothing(h, items, [r]);
    }
  }

  /** Fail closed: nothing but a quiet file passes in silence. */
  lemma SilenceIsQuiet(path: string, file: FileView, items: seq<Item>)
    requires forall r :: !FileReason(path, file, items, r)
    requires forall e :: !FileEscalates(path, file, items, e)
    ensures Quiet(file, items)
  {
    forall r | r in RegionsOf(file.lines) ensures Confirmed(items, r) {
      assert !FileEscalates(path, file, items, WrongRegion(path, r));
    }
    forall h | h in file.hunks ensures exists r :: r in RegionsOf(file.lines) && Contains(r, h) {
      var touched := Touched(h, items);
      if touched != [] {
        assert touched[0] in touched;
        assert FileReason(path, file, items, Changed(path, touched[0], h));
      }
      var gap := GapExists(items, h.start, file.lastLine);
      assert !FileEscalates(path, file, items, Unplaced(path, h, gap));
    }
  }
}
