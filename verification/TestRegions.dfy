/** Finding the top-level test modules of a formatted source file by its lines. */
module TestRegions {
  import opened Common
  import opened MutantKeys

  // ---- what a line is ----

  predicate IsAttribute(line: string) {
    line == "#[cfg(test)]"
  }

  predicate IsCloser(line: string) {
    line == "}"
  }

  predicate IsSpace(c: char) {
    || c == ' ' || '\t' <= c <= '\r' || '\U{1c}' <= c <= '\U{1f}' || c == '\U{85}' || c == '\U{a0}'
    || c == '\U{1680}' || '\U{2000}' <= c <= '\U{200a}' || c == '\U{2028}' || c == '\U{2029}'
    || c == '\U{202f}' || c == '\U{205f}' || c == '\U{3000}'
  }

  predicate IsBlank(line: string) {
    forall k :: 0 <= k < |line| ==> IsSpace(line[k])
  }

  /** Spaces and tabs make a blank line, and anything printed makes it none. */
  lemma BlankLines(line: string)
    ensures (forall k :: 0 <= k < |line| ==> line[k] == ' ' || line[k] == '\t') ==> IsBlank(line)
    ensures (exists k :: 0 <= k < |line| && '!' <= line[k] <= '~') ==> !IsBlank(line)
  {
  }

  predicate StartsName(c: char) {
    'a' <= c <= 'z' || 'A' <= c <= 'Z' || c == '_'
  }

  predicate IsName(s: string) {
    s != [] && StartsName(s[0]) && forall k :: 0 <= k < |s| ==> StartsName(s[k]) || '0' <= s[k] <= '9'
  }

  /** `mod`, a name and an opening brace, and nothing else. */
  predicate IsPlainModule(s: string) {
    |s| > 6 && s[..4] == "mod " && s[|s| - 2..] == " {" && IsName(s[4..|s| - 2])
  }

  /** Where `pub(...)` ends: the first closing parenthesis, if there is one. */
  function Visibility(s: string, from: nat): (r: nat)
    requires from <= |s|
    ensures from <= r <= |s|
    decreases |s| - from
  {
    if from == |s| || s[from] == ')' then from else Visibility(s, from + 1)
  }

  predicate IsRestrictedModule(line: string) {
    "pub(" <= line &&
    var k := Visibility(line, 4);
    k + 2 <= |line| && line[k..k + 2] == ") " && IsPlainModule(line[k + 2..])
  }

  predicate IsOpener(line: string) {
    IsPlainModule(line) || ("pub " <= line && IsPlainModule(line[4..])) || IsRestrictedModule(line)
  }

  lemma {:induction false} VisibilityEnds(s: string, from: nat, n: nat)
    requires from <= n < |s| && s[n] == ')' && forall k :: from <= k < n ==> s[k] != ')'
    ensures Visibility(s, from) == n
    decreases n - from
  {
    if from < n {
      VisibilityEnds(s, from + 1, n);
    }
  }

  lemma PlainModuleIff(s: string)
    ensures IsPlainModule(s) <==> exists name :: IsName(name) && s == "mod " + name + " {"
  {
    if IsPlainModule(s) {
      var name := s[4..|s| - 2];
      assert s == s[..4] + name + s[|s| - 2..];
    }
    if name :| IsName(name) && s == "mod " + name + " {" {
      assert s[..4] == "mod " && s[4..|s| - 2] == name && s[|s| - 2..] == " {";
    }
  }

  /** What may stand in front of `mod`: nothing, `pub`, or `pub` with a restriction. */
  predicate IsVisibility(front: string) {
    || front == "" || front == "pub "
    || (|front| >= 6 && front[..4] == "pub(" && front[|front| - 2..] == ") " && ')' !in front[4..|front| - 2])
  }

  ghost predicate ReadsAsModule(line: string, front: string, name: string) {
    IsVisibility(front) && IsName(name) && line == front + ("mod " + name + " {")
  }

  /** An opener is a visibility, `mod`, a name and an opening brace, and nothing else. */
  lemma OpenerIff(line: string)
    ensures IsOpener(line) <==> exists front, name :: ReadsAsModule(line, front, name)
  {
    if IsOpener(line) {
      var front, name := OpenerReads(line);
    }
    if front, name :| ReadsAsModule(line, front, name) {
      ModuleOpens(line, front, name);
    }
  }

  lemma OpenerReads(line: string) returns (front: string, name: string)
    requires IsOpener(line)
    ensures ReadsAsModule(line, front, name)
  {
    var n := if IsPlainModule(line) then 0
             else if "pub " <= line && IsPlainModule(line[4..]) then 4 else Visibility(line, 4) + 2;
    if n > 4 {
      RestrictedFront(line, n);
    }
    front := line[..n];
    var rest := line[n..];
    assert line == front + rest;
    PlainModuleIff(rest);
    name :| IsName(name) && rest == "mod " + name + " {";
  }

  lemma ModuleOpens(line: string, front: string, name: string)
    requires ReadsAsModule(line, front, name)
    ensures IsOpener(line)
  {
    var rest := "mod " + name + " {";
    PlainModuleIff(rest);
    assert line[..|front|] == front && line[|front|..] == rest;
    if |front| >= 6 {
      FrontIsRestriction(line, front);
    }
  }

  lemma {:induction false} VisibilityStops(s: string, from: nat)
    requires from <= |s|
    ensures forall k :: from <= k < Visibility(s, from) ==> s[k] != ')'
    decreases |s| - from
  {
    if from < |s| && s[from] != ')' {
      VisibilityStops(s, from + 1);
    }
  }

  lemma RestrictedFront(line: string, n: nat)
    requires IsRestrictedModule(line) && n == Visibility(line, 4) + 2
    ensures n <= |line| && IsVisibility(line[..n])
  {
    VisibilityStops(line, 4);
    var front := line[..n];
    assert front[..4] == line[..4] && front[|front| - 2..] == line[n - 2..n];
    var inner := front[4..n - 2];
    assert forall k :: 0 <= k < |inner| ==> inner[k] == line[k + 4];
  }

  lemma FrontIsRestriction(line: string, front: string)
    requires |front| >= 6 && IsVisibility(front) && |front| <= |line| && line[..|front|] == front
    ensures "pub(" <= line && Visibility(line, 4) + 2 == |front| && line[|front| - 2..|front|] == ") "
  {
    var n := |front| - 2;
    assert line[..4] == front[..4] && line[n..n + 2] == front[n..] && line[n] == front[n..][0] == ')';
    forall k | 4 <= k < n ensures line[k] != ')' {
      assert front[4..n][k - 4] == front[k] == line[..|front|][k] == line[k];
    }
    VisibilityEnds(line, 4, n);
  }

  lemma OpenerIsNotBlank(line: string)
    requires IsOpener(line)
    ensures !IsBlank(line)
  {
    assert line[0] == 'm' || line[0] == 'p' by {
      if IsPlainModule(line) {
        assert line[..4][0] == line[0];
      }
    }
  }

  // ---- the specification ----

  /** Line `o` is the first line with any text after line `i`, and opens a module. */
  predicate OpensAt(lines: seq<string>, i: nat, o: nat) {
    && i < o < |lines| && IsOpener(lines[o])
    && forall k :: i < k < o ==> IsBlank(lines[k])
  }

  predicate ClosesAt(lines: seq<string>, o: nat, c: nat) {
    && o < c < |lines| && IsCloser(lines[c])
    && forall k :: o < k < c ==> !IsCloser(lines[k])
  }

  /** The lines `i` to `c`, counted from zero, are a test module with its attribute. */
  ghost predicate IsModule(lines: seq<string>, i: nat, c: nat) {
    i < |lines| && IsAttribute(lines[i]) && exists o: nat :: OpensAt(lines, i, o) && ClosesAt(lines, o, c)
  }

  /** A region, in lines counted from one. */
  ghost predicate IsRegion(lines: seq<string>, r: Span) {
    1 <= r.start <= r.end && IsModule(lines, r.start - 1, r.end - 1)
  }

  predicate Increasing(regions: seq<Span>) {
    forall j, k :: 0 <= j < k < |regions| ==> regions[j].end < regions[k].start
  }

  /** Line `i`, counted from zero, starts a region or lies inside one. */
  ghost predicate Accounted(regions: seq<Span>, i: int) {
    exists k :: 0 <= k < |regions| && regions[k].start <= i + 1 <= regions[k].end
  }

  ghost predicate Complete(lines: seq<string>, regions: seq<Span>, upTo: int) {
    forall i: nat, c: nat {:trigger IsModule(lines, i, c), Accounted(regions, i)} ::
      i < upTo && IsModule(lines, i, c) ==> Accounted(regions, i)
  }

  ghost predicate IsScan(lines: seq<string>, regions: seq<Span>) {
    && (forall k :: 0 <= k < |regions| ==> IsRegion(lines, regions[k]))
    && Increasing(regions)
    && Complete(lines, regions, |lines|)
  }

  /** An attribute line opens at most one module. */
  lemma ModuleIsUnique(lines: seq<string>, i: nat, c: nat, d: nat)
    requires IsModule(lines, i, c) && IsModule(lines, i, d)
    ensures c == d
  {
    var o: nat :| OpensAt(lines, i, o) && ClosesAt(lines, o, c);
    var p: nat :| OpensAt(lines, i, p) && ClosesAt(lines, p, d);
    OpenerIsNotBlank(lines[o]);
    OpenerIsNotBlank(lines[p]);
    assert o == p;
  }

  // ---- the scanner ----

  /** The last line of the module whose attribute stands at `index`, if it is one. */
  method ModuleEnd(lines: seq<string>, index: nat) returns (end: Option<nat>)
    requires index < |lines| && IsAttribute(lines[index])
    ensures end.Some? ==> index < end.value < |lines| && IsModule(lines, index, end.value)
    ensures end.None? ==> forall c: nat :: !IsModule(lines, index, c)
  {
    var opener := index + 1;
    while opener < |lines| && IsBlank(lines[opener])
      invariant index < opener <= |lines|
      invariant forall k :: index < k < opener ==> IsBlank(lines[k])
    {
      opener := opener + 1;
    }
    NoOpenerElsewhere(lines, index, opener);
    if opener == |lines| || !IsOpener(lines[opener]) {
      return None;
    }
    var closer := opener + 1;
    while closer < |lines| && !IsCloser(lines[closer])
      invariant opener < closer <= |lines|
      invariant forall k :: opener < k < closer ==> !IsCloser(lines[k])
    {
      closer := closer + 1;
    }
    if closer == |lines| {
      return None;
    }
    assert OpensAt(lines, index, opener) && ClosesAt(lines, opener, closer);
    return Some(closer);
  }

  method CfgTestRegions(lines: seq<string>) returns (regions: seq<Span>)
    ensures IsScan(lines, regions)
  {
    regions := [];
    var index := 0;
    while index < |lines|
      invariant 0 <= index <= |lines|
      invariant forall k :: 0 <= k < |regions| ==> IsRegion(lines, regions[k]) && regions[k].end <= index
      invariant Increasing(regions)
      invariant Complete(lines, regions, index)
    {
      ghost var before, at := regions, index;
      if IsAttribute(lines[index]) {
        var end := ModuleEnd(lines, index);
        if end.Some? {
          regions := regions + [Span(index + 1, end.value + 1)];
          index := end.value;
        }
      }
      index := index + 1;
      CompleteNext(lines, before, regions, at, index);
    }
  }

  /** Only the first line with text can open the module of an attribute. */
  lemma NoOpenerElsewhere(lines: seq<string>, i: nat, opener: nat)
    requires i < opener <= |lines|
    requires forall k :: i < k < opener ==> IsBlank(lines[k])
    requires opener < |lines| ==> !IsBlank(lines[opener])
    ensures forall o: nat :: OpensAt(lines, i, o) ==> o == opener
  {
    forall o: nat | OpensAt(lines, i, o) ensures o == opener {
      OpenerIsNotBlank(lines[o]);
    }
  }

  /** Going on from `at` to `next` loses no module: either `at` starts none, or the
      lines up to `next` are now a region. */
  lemma CompleteNext(lines: seq<string>, before: seq<Span>, regions: seq<Span>, at: nat, next: nat)
    requires Complete(lines, before, at)
    requires || (regions == before && next == at + 1 && forall c: nat :: !IsModule(lines, at, c))
             || regions == before + [Span(at + 1, next)]
    ensures Complete(lines, regions, next)
  {
    forall i: nat, c: nat | i < next && IsModule(lines, i, c) ensures Accounted(regions, i) {
      if i < at {
        assert Accounted(before, i);
        var k :| 0 <= k < |before| && before[k].start <= i + 1 <= before[k].end;
        assert regions[k] == before[k];
      } else if regions != before {
        assert regions[|before|] == Span(at + 1, next);
      }
    }
  }

  // ---- the specification leaves no choice ----

  /** The same three demands, over a table that gives every module's last line. */
  ghost predicate Covering(ends: map<int, int>, regions: seq<Span>) {
    Listed(ends, regions) && Increasing(regions) && AllAccounted(ends, regions)
  }

  predicate Listed(ends: map<int, int>, regions: seq<Span>) {
    forall k :: 0 <= k < |regions| ==>
      && regions[k].start - 1 in ends && ends[regions[k].start - 1] == regions[k].end - 1
      && regions[k].start <= regions[k].end
  }

  ghost predicate AllAccounted(ends: map<int, int>, regions: seq<Span>) {
    forall i {:trigger Accounted(regions, i)} :: i in ends ==> Accounted(regions, i)
  }

  /** After a common beginning, `b` has a region that starts no later than `a`'s next. */
  lemma StartsNoLater(ends: map<int, int>, a: seq<Span>, b: seq<Span>, k: nat)
    requires Covering(ends, a) && Covering(ends, b) && k < |a| && k <= |b|
    requires forall j :: 0 <= j < k ==> a[j] == b[j]
    ensures k < |b| && b[k].start <= a[k].start
  {
    var n := a[k].start;
    assert Accounted(b, n - 1);
    var j :| 0 <= j < |b| && b[j].start <= n <= b[j].end;
    assert b[k].start <= b[k].end;
  }

  lemma {:induction false} CoveringIsUnique(ends: map<int, int>, a: seq<Span>, b: seq<Span>, k: nat)
    requires Covering(ends, a) && Covering(ends, b) && k <= |a| && k <= |b|
    ensures forall j :: 0 <= j < k ==> a[j] == b[j]
  {
    if k > 0 {
      CoveringIsUnique(ends, a, b, k - 1);
      StartsNoLater(ends, a, b, k - 1);
      StartsNoLater(ends, b, a, k - 1);
    }
  }

  lemma NoLonger(ends: map<int, int>, a: seq<Span>, b: seq<Span>)
    requires Covering(ends, a) && Covering(ends, b)
    ensures |a| <= |b|
  {
    if |b| < |a| {
      CoveringIsUnique(ends, a, b, |b|);
      StartsNoLater(ends, a, b, |b|);
    }
  }

  ghost predicate IsTable(lines: seq<string>, ends: map<int, int>) {
    && (forall i: nat, c: nat :: IsModule(lines, i, c) ==> i in ends && ends[i] == c)
    && (forall i :: i in ends ==> 0 <= i < |lines| && 0 <= ends[i] && IsModule(lines, i, ends[i]))
  }

  ghost predicate StartsModule(lines: seq<string>, i: nat) {
    exists c: nat :: IsModule(lines, i, c)
  }

  lemma ModuleTable(lines: seq<string>) returns (ends: map<int, int>)
    ensures IsTable(lines, ends)
  {
    ends := map i: nat | i < |lines| && StartsModule(lines, i) :: var c: nat :| IsModule(lines, i, c); c;
    forall i: nat, c: nat | IsModule(lines, i, c) ensures i in ends && ends[i] == c {
      assert StartsModule(lines, i);
      ModuleIsUnique(lines, i, c, ends[i]);
    }
  }

  lemma RegionIsListed(lines: seq<string>, ends: map<int, int>, r: Span)
    requires IsTable(lines, ends) && IsRegion(lines, r)
    ensures r.start - 1 in ends && ends[r.start - 1] == r.end - 1 && r.start <= r.end
  {
  }

  lemma ListedIsAccounted(lines: seq<string>, ends: map<int, int>, regions: seq<Span>, i: int)
    requires IsTable(lines, ends) && Complete(lines, regions, |lines|) && i in ends
    ensures Accounted(regions, i)
  {
    assert IsModule(lines, i, ends[i]);
  }

  lemma RegionsListed(lines: seq<string>, ends: map<int, int>, regions: seq<Span>)
    requires IsTable(lines, ends)
    requires forall k :: 0 <= k < |regions| ==> IsRegion(lines, regions[k])
    ensures Listed(ends, regions)
  {
    forall k | 0 <= k < |regions|
      ensures regions[k].start - 1 in ends && ends[regions[k].start - 1] == regions[k].end - 1
           && regions[k].start <= regions[k].end
    {
      RegionIsListed(lines, ends, regions[k]);
    }
  }

  lemma ModulesAccounted(lines: seq<string>, ends: map<int, int>, regions: seq<Span>)
    requires IsTable(lines, ends) && Complete(lines, regions, |lines|)
    ensures AllAccounted(ends, regions)
  {
    forall i | i in ends ensures Accounted(regions, i) {
      ListedIsAccounted(lines, ends, regions, i);
    }
  }

  /** A file has exactly one scan. */
  lemma ScanIsUnique(lines: seq<string>, a: seq<Span>, b: seq<Span>)
    requires IsScan(lines, a) && IsScan(lines, b)
    ensures a == b
  {
    var ends := ModuleTable(lines);
    RegionsListed(lines, ends, a);
    RegionsListed(lines, ends, b);
    ModulesAccounted(lines, ends, a);
    ModulesAccounted(lines, ends, b);
    CoveringsAgree(ends, a, b);
  }

  lemma CoveringsAgree(ends: map<int, int>, a: seq<Span>, b: seq<Span>)
    requires Covering(ends, a) && Covering(ends, b)
    ensures a == b
  {
    NoLonger(ends, a, b);
    NoLonger(ends, b, a);
    CoveringIsUnique(ends, a, b, |a|);
  }
}
