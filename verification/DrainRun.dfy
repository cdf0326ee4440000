/** A whole measurement run, from the corpus to its exit code. */
module DrainRun {
  import opened Common
  import opened DrainArrivals
  import opened DrainState
  import opened DrainMeasurement

  const OK: int := 0
  const UNCLASSIFIED: int := 2
  const PREMISE_BROKEN: int := 3
  const ABOVE_BOUND: int := 4
  const NOTHING_TO_CHECK: int := 5

  // ---- one pass over the corpus ----

  function VersionSet(versions: seq<string>): set<string> {
    set v | v in versions
  }

  /** The state is what the files admitted to any of `versions` say. */
  ghost predicate Holds(state: VersionState, table: Table, files: seq<File>, versions: set<string>)
    reads state
  {
    state.Shows(table, FilesFor(files, versions), TurnsFor(files, versions))
  }

  lemma NotAdmitted(files: seq<File>, file: File, versions: set<string>)
    requires !Admitted(file, versions)
    ensures FilesFor(files + [file], versions) == FilesFor(files, versions)
    ensures TurnsFor(files + [file], versions) == TurnsFor(files, versions)
  {
    assert (files + [file])[..|files|] == files;
    assert TurnsFor(files, versions) + [] == TurnsFor(files, versions);
  }

  lemma IsAdmitted(files: seq<File>, file: File, versions: set<string>)
    requires Admitted(file, versions)
    ensures FilesFor(files + [file], versions) == FilesFor(files, versions) + 1
    ensures TurnsFor(files + [file], versions) == TurnsFor(files, versions) + Turns(file.rows)
  {
    assert (files + [file])[..|files|] == files;
  }

  method Offer(table: Table, state: VersionState, file: File, ghost files: seq<File>, ghost versions: set<string>)
    requires Holds(state, table, files, versions) && Admitted(file, versions)
    modifies state
    ensures Holds(state, table, files + [file], versions)
  {
    IsAdmitted(files, file, versions);
    state.Accumulate(table, file.rows, FilesFor(files, versions), TurnsFor(files, versions));
  }

  function Seen(files: seq<File>, file: File, seen: bool): seq<File> {
    if seen then files + [file] else files
  }

  /** One file offered to one version, and to the pool unless it has been already. */
  method OfferVersion(table: Table, state: VersionState, pooled: VersionState, version: string,
                      file: File, pooledBefore: bool,
                      ghost files: seq<File>, ghost versions: set<string>)
    returns (pooledNow: bool)
    requires state != pooled && version in versions
    requires Holds(state, table, files, {version})
    requires Holds(pooled, table, Seen(files, file, pooledBefore), versions)
    modifies state, pooled
    ensures Holds(state, table, files + [file], {version})
    ensures pooledNow <==> pooledBefore || version in file.versions
    ensures Holds(pooled, table, Seen(files, file, pooledNow), versions)
  {
    pooledNow := pooledBefore;
    if version !in file.versions {
      NotAdmitted(files, file, {version});
    } else {
      assert version in file.versions * {version};
      Offer(table, state, file, files, {version});
      if !pooledNow {
        assert version in file.versions * versions;
        Offer(table, pooled, file, files, versions);
        pooledNow := true;
      }
    }
  }

  /** The file names one of the first `n` versions. */
  predicate Names(file: File, versions: seq<string>, n: nat)
    requires n <= |versions|
  {
    n > 0 && (Names(file, versions, n - 1) || versions[n - 1] in file.versions)
  }

  lemma {:induction false} NamesNone(file: File, versions: seq<string>, n: nat)
    requires n <= |versions| && !Names(file, versions, n)
    ensures file.versions * VersionSet(versions[..n]) == {}
    ensures n == |versions| ==> !Admitted(file, VersionSet(versions))
  {
    if n > 0 {
      NamesNone(file, versions, n - 1);
      assert versions[..n] == versions[..n - 1] + [versions[n - 1]];
      assert VersionSet(versions[..n]) == VersionSet(versions[..n - 1]) + {versions[n - 1]};
    }
    assert versions[..|versions|] == versions;
  }

  ghost predicate Apart(states: seq<VersionState>, pooled: VersionState) {
    pooled !in states && forall i, j :: 0 <= i < j < |states| ==> states[i] != states[j]
  }

  /** The versions before `j` have been offered the file, the others not yet. */
  ghost predicate Underway(states: seq<VersionState>, table: Table, versions: seq<string>,
                           files: seq<File>, file: File, j: int)
    reads states
    requires 0 <= j <= |states| == |versions|
  {
    forall i :: 0 <= i < |states| ==> Holds(states[i], table, Seen(files, file, i < j), {versions[i]})
  }

  method OfferNext(table: Table, versions: seq<string>, states: seq<VersionState>, pooled: VersionState,
                   file: File, j: nat,
                   pooledBefore: bool, ghost files: seq<File>)
    returns (pooledNow: bool)
    requires j < |states| == |versions| && Apart(states, pooled)
    requires Underway(states, table, versions, files, file, j)
    requires Holds(pooled, table, Seen(files, file, pooledBefore), VersionSet(versions))
    modifies states, pooled
    ensures Underway(states, table, versions, files, file, j + 1)
    ensures pooledNow <==> pooledBefore || versions[j] in file.versions
    ensures Holds(pooled, table, Seen(files, file, pooledNow), VersionSet(versions))
  {
    assert Holds(states[j], table, files, {versions[j]});
    pooledNow := OfferVersion(table, states[j], pooled, versions[j], file, pooledBefore, files, VersionSet(versions));
    forall i | 0 <= i < |states| && i != j
      ensures Holds(states[i], table, Seen(files, file, i < j + 1), {versions[i]})
    {
      assert states[i] != states[j] && states[i] != pooled;
    }
  }

  ghost predicate AllHold(states: seq<VersionState>, table: Table, versions: seq<string>, files: seq<File>)
    reads states
    requires |states| <= |versions|
  {
    forall i :: 0 <= i < |states| ==> Holds(states[i], table, files, {versions[i]})
  }

  /** One file, offered to every version and pooled at most once. */
  method AddFile(table: Table, versions: seq<string>, states: seq<VersionState>,
                 pooled: VersionState, file: File, ghost files: seq<File>)
    requires |states| == |versions| && Apart(states, pooled)
    requires AllHold(states, table, versions, files)
    requires Holds(pooled, table, files, VersionSet(versions))
    modifies states, pooled
    ensures AllHold(states, table, versions, files + [file])
    ensures Holds(pooled, table, files + [file], VersionSet(versions))
  {
    var pooledThisFile := false;
    for j := 0 to |versions|
      invariant Underway(states, table, versions, files, file, j)
      invariant Holds(pooled, table, Seen(files, file, pooledThisFile), VersionSet(versions))
      invariant pooledThisFile <==> Names(file, versions, j)
    {
      pooledThisFile := OfferNext(table, versions, states, pooled, file, j, pooledThisFile, files);
    }
    if !pooledThisFile {
      NamesNone(file, versions, |versions|);
      NotAdmitted(files, file, VersionSet(versions));
    }
  }

  method NewStates(table: Table, versions: seq<string>) returns (states: seq<VersionState>, pooled: VersionState)
    ensures |states| == |versions| && Apart(states, pooled) && fresh(pooled) && fresh(states)
    ensures AllHold(states, table, versions, []) && Holds(pooled, table, [], VersionSet(versions))
  {
    pooled := new VersionState(table);
    states := [];
    for i := 0 to |versions|
      invariant |states| == i && Apart(states, pooled) && fresh(pooled) && fresh(states)
      invariant Holds(pooled, table, [], VersionSet(versions))
      invariant AllHold(states, table, versions, [])
    {
      var state := new VersionState(table);
      states := states + [state];
    }
  }

  method Collect(table: Table, files: seq<File>, versions: seq<string>)
    returns (states: seq<VersionState>, pooled: VersionState)
    ensures |states| == |versions| && AllHold(states, table, versions, files)
    ensures Holds(pooled, table, files, VersionSet(versions))
  {
    states, pooled := NewStates(table, versions);
    ghost var seen: seq<File> := [];
    for n := 0 to |files|
      invariant seen == files[..n]
      invariant AllHold(states, table, versions, seen)
      invariant Holds(pooled, table, seen, VersionSet(versions))
    {
      PrefixNext(files, n);
      AddFile(table, versions, states, pooled, files[n], seen);
      seen := seen + [files[n]];
    }
    assert seen == files;
  }

  // ---- the verdict ----

  /** Rounds to the nearest whole number, and a half to the even one. */
  function Round(x: real): (n: int)
    ensures n as real - 0.5 <= x <= n as real + 0.5
    ensures x == n as real - 0.5 || x == n as real + 0.5 ==> n % 2 == 0
  {
    var f := x.Floor;
    if x < f as real + 0.5 then f
    else if x > f as real + 0.5 then f + 1
    else if f % 2 == 0 then f else f + 1
  }

  /** The bound is compared with the largest reachable arrival, rounded. */
  function Verdict(bound: Option<int>, reachable: seq<real>): int {
    if bound.None? then OK
    else if reachable == [] then NOTHING_TO_CHECK
    else if Round(MaxOf(reachable)) > bound.value then ABOVE_BOUND
    else OK
  }

  ghost predicate SomeUnknown(table: Table, files: seq<File>, versions: set<string>) {
    exists a :: a in ArrivalsFor(files, versions) && a.kind !in table
  }

  ghost predicate SomeMisplaced(table: Table, files: seq<File>, versions: set<string>) {
    exists a :: && a in ArrivalsFor(files, versions)
                && a.kind in table && table[a.kind].retrospective && a.sinceCandidate > 0.0
  }

  datatype Receipt = Receipt(recommended: Option<int>, perVersion: seq<Option<int>>)
  datatype Outcome = Outcome(exit: int, receipt: Option<Receipt>)

  lemma CounterSays(table: Table, arrivals: seq<Arrival>, misplaced: bool, counts: map<Kind, nat>)
    requires Counts(table, arrivals, misplaced, counts)
    ensures counts != map[] <==> exists a :: a in arrivals && Tallied(table, a, misplaced, a.kind)
  {
    if counts != map[] {
      var k :| k in counts;
      assert CountsKind(table, arrivals, misplaced, counts, k);
      TallyArrives(table, arrivals, misplaced, k);
      var i :| 0 <= i < |arrivals| && Tallied(table, arrivals[i], misplaced, k);
      assert arrivals[i] in arrivals;
    }
    forall a | a in arrivals && Tallied(table, a, misplaced, a.kind) ensures a.kind in counts {
      var i :| 0 <= i < |arrivals| && arrivals[i] == a;
      TallyArrives(table, arrivals, misplaced, a.kind);
      assert CountsKind(table, arrivals, misplaced, counts, a.kind);
    }
  }

  lemma CountsSay(table: Table, files: seq<File>, versions: set<string>, state: VersionState)
    requires Holds(state, table, files, versions)
    ensures state.unknownKinds != map[] <==> SomeUnknown(table, files, versions)
    ensures state.notRetrospective != map[] <==> SomeMisplaced(table, files, versions)
  {
    var arrivals := ArrivalsFor(files, versions);
    CounterSays(table, arrivals, false, state.unknownKinds);
    CounterSays(table, arrivals, true, state.notRetrospective);
    assert forall a :: Unknown(table, a) <==> Tallied(table, a, false, a.kind);
    assert forall a :: Misplaced(table, a) <==> Tallied(table, a, true, a.kind);
  }

  /** What fails in the pool fails in one of its versions, and the other way round. */
  lemma FailsInSomeVersion(table: Table, files: seq<File>, versions: seq<string>)
    ensures SomeUnknown(table, files, VersionSet(versions)) <==>
            exists i :: 0 <= i < |versions| && SomeUnknown(table, files, {versions[i]})
    ensures SomeMisplaced(table, files, VersionSet(versions)) <==>
            exists i :: 0 <= i < |versions| && SomeMisplaced(table, files, {versions[i]})
  {
    forall a | a in ArrivalsFor(files, VersionSet(versions))
      ensures exists i :: 0 <= i < |versions| && a in ArrivalsFor(files, {versions[i]})
    {
      PooledArrivals(files, VersionSet(versions), a);
      var v :| v in VersionSet(versions) && a in ArrivalsFor(files, {v});
      var i :| 0 <= i < |versions| && versions[i] == v;
    }
    forall i, a | 0 <= i < |versions| && a in ArrivalsFor(files, {versions[i]})
      ensures a in ArrivalsFor(files, VersionSet(versions))
    {
      PooledArrivals(files, VersionSet(versions), a);
      assert versions[i] in VersionSet(versions);
    }
  }

  /** Once no kind is unknown, every kind in the state is in the table. */
  lemma KindsAreKnown(table: Table, files: seq<File>, versions: set<string>, byKind: map<Kind, seq<real>>)
    requires Files(byKind, ArrivalsFor(files, versions)) && !SomeUnknown(table, files, versions)
    ensures byKind.Keys <= table.Keys
  {
    var arrivals := ArrivalsFor(files, versions);
    forall k | k in byKind ensures k in table {
      assert FilesKind(byKind, arrivals, k);
      KindArrives(arrivals, k);
      var i :| 0 <= i < |arrivals| && arrivals[i].kind == k;
      assert arrivals[i] in arrivals;
    }
  }

  method ReportFor(table: Table, state: VersionState, ghost files: seq<File>, ghost versions: set<string>)
    returns (r: Report)
    requires Holds(state, table, files, versions) && !SomeUnknown(table, files, versions)
    ensures r.balances && r.recommended == RecommendedFor(table, files, versions)
    ensures forall x :: x in r.reachable <==> x in ReachableFor(table, files, versions)
  {
    KindsAreKnown(table, files, versions, state.byKind);
    r := MakeReport(table, state.byKind, ArrivalsFor(files, versions));
    ghost var expected := ReachableFor(table, files, versions);
    assert forall x :: x in r.reachable <==> x in multiset(r.reachable);
    assert forall x :: x in expected <==> x in multiset(expected);
    RecommendSame(r.reachable, expected);
  }

  lemma VerdictSame(bound: Option<int>, a: seq<real>, b: seq<real>)
    requires forall x :: x in a <==> x in b
    ensures Verdict(bound, a) == Verdict(bound, b)
  {
    assert a != [] ==> a[0] in a;
    assert b != [] ==> b[0] in b;
    if a != [] {
      assert MaxOf(a) in b && MaxOf(b) in a;
    }
  }

  method AnyCounter(states: seq<VersionState>) returns (unknown: bool, misplaced: bool)
    ensures unknown <==> exists k :: 0 <= k < |states| && states[k].unknownKinds != map[]
    ensures misplaced <==> exists k :: 0 <= k < |states| && states[k].notRetrospective != map[]
  {
    unknown, misplaced := false, false;
    for i := 0 to |states|
      invariant unknown <==> exists k :: 0 <= k < i && states[k].unknownKinds != map[]
      invariant misplaced <==> exists k :: 0 <= k < i && states[k].notRetrospective != map[]
    {
      unknown := unknown || states[i].unknownKinds != map[];
      misplaced := misplaced || states[i].notRetrospective != map[];
    }
  }

  lemma CountsSayAt(table: Table, files: seq<File>, versions: seq<string>, states: seq<VersionState>, i: nat)
    requires i < |states| == |versions| && AllHold(states, table, versions, files)
    ensures states[i].unknownKinds != map[] <==> SomeUnknown(table, files, {versions[i]})
    ensures states[i].notRetrospective != map[] <==> SomeMisplaced(table, files, {versions[i]})
  {
    assert Holds(states[i], table, files, {versions[i]});
    CountsSay(table, files, {versions[i]}, states[i]);
  }

  /** The counters of the versions together speak for the pool. */
  lemma CountersSay(table: Table, files: seq<File>, versions: seq<string>, states: seq<VersionState>)
    requires |states| == |versions| && AllHold(states, table, versions, files)
    ensures (exists k :: 0 <= k < |states| && states[k].unknownKinds != map[]) <==>
            SomeUnknown(table, files, VersionSet(versions))
    ensures (exists k :: 0 <= k < |states| && states[k].notRetrospective != map[]) <==>
            SomeMisplaced(table, files, VersionSet(versions))
  {
    forall i | 0 <= i < |states|
      ensures states[i].unknownKinds != map[] <==> SomeUnknown(table, files, {versions[i]})
      ensures states[i].notRetrospective != map[] <==> SomeMisplaced(table, files, {versions[i]})
    {
      CountsSayAt(table, files, versions, states, i);
    }
    FailsInSomeVersion(table, files, versions);
  }

  /** The whole run: a corpus with an unclassified kind, or with a broken premise, has
      no receipt; any other is reported without failing, with the recommendation of
      every version and of the pool. */
  method Measure(table: Table, files: seq<File>, versions: seq<string>, bound: Option<int>) returns (r: Outcome)
    ensures r.receipt.None? <==>
            SomeUnknown(table, files, VersionSet(versions)) || SomeMisplaced(table, files, VersionSet(versions))
    ensures r.receipt.None? ==>
            r.exit == if SomeUnknown(table, files, VersionSet(versions)) then 2 else 3
    ensures r.receipt.Some? ==>
            && r.exit == Verdict(bound, ReachableFor(table, files, VersionSet(versions)))
            && r.receipt.value.recommended == RecommendedFor(table, files, VersionSet(versions))
            && r.receipt.value.perVersion == RecommendedAlone(table, files, versions)
  {
    var states, pooled := Collect(table, files, versions);
    var unknown, misplaced := AnyCounter(states);
    CountersSay(table, files, versions, states);
    if unknown {
      return Outcome(UNCLASSIFIED, None);
    }
    if misplaced {
      return Outcome(PREMISE_BROKEN, None);
    }
    var perVersion := ReportVersions(table, states, files, versions);
    var report := ReportFor(table, pooled, files, VersionSet(versions));
    VerdictSame(bound, report.reachable, ReachableFor(table, files, VersionSet(versions)));
    r := Outcome(Verdict(bound, report.reachable), Some(Receipt(report.recommended, perVersion)));
  }

  lemma NoneUnknown(table: Table, files: seq<File>, versions: seq<string>)
    requires !SomeUnknown(table, files, VersionSet(versions))
    ensures forall i :: 0 <= i < |versions| ==> !SomeUnknown(table, files, {versions[i]})
  {
    FailsInSomeVersion(table, files, versions);
  }

  /** What each version would recommend on its own. */
  function RecommendedAlone(table: Table, files: seq<File>, versions: seq<string>): seq<Option<int>> {
    seq(|versions|, i requires 0 <= i < |versions| => RecommendedFor(table, files, {versions[i]}))
  }

  method ReportVersion(table: Table, states: seq<VersionState>, i: nat,
                       ghost files: seq<File>, ghost versions: seq<string>)
    returns (recommended: Option<int>)
    requires i < |states| == |versions| && AllHold(states, table, versions, files)
    requires !SomeUnknown(table, files, VersionSet(versions))
    ensures recommended == RecommendedAlone(table, files, versions)[i]
  {
    NoneUnknown(table, files, versions);
    assert Holds(states[i], table, files, {versions[i]});
    var report := ReportFor(table, states[i], files, {versions[i]});
    recommended := report.recommended;
  }

  method ReportVersions(table: Table, states: seq<VersionState>, ghost files: seq<File>, ghost versions: seq<string>)
    returns (perVersion: seq<Option<int>>)
    requires |states| == |versions| && AllHold(states, table, versions, files)
    requires !SomeUnknown(table, files, VersionSet(versions))
    ensures perVersion == RecommendedAlone(table, files, versions)
  {
    ghost var expected := RecommendedAlone(table, files, versions);
    perVersion := [];
    for i := 0 to |states|
      invariant perVersion == expected[..i]
    {
      PrefixNext(expected, i);
      var recommended := ReportVersion(table, states, i, files, versions);
      perVersion := perVersion + [recommended];
    }
  }

  // ---- what the bound check sees ----

  /** The exit codes: 0 without a bound or within it, 5 with nothing to check, 4 above. */
  lemma VerdictIs(bound: Option<int>, reachable: seq<real>)
    ensures Verdict(bound, reachable) in {0, 4, 5}
    ensures Verdict(bound, reachable) == 5 <==> bound.Some? && reachable == []
    ensures Verdict(bound, reachable) == 4 <==>
            bound.Some? && exists x :: x in reachable && Round(x) > bound.value
  {
    if x :| x in reachable && bound.Some? && Round(x) > bound.value {
      RoundMonotone(x, MaxOf(reachable));
    }
  }

  lemma RoundMonotone(x: real, y: real)
    requires x <= y
    ensures Round(x) <= Round(y)
  {
  }

  /** An arrival above the bound by no more than half a millisecond is rounded away. */
  lemma ReportedAboveIff(reachable: seq<real>, bound: int)
    requires reachable != []
    ensures var m := MaxOf(reachable);
            Verdict(Some(bound), reachable) == ABOVE_BOUND <==>
            m > bound as real + 0.5 || (m == bound as real + 0.5 && bound % 2 != 0)
  {
    var m := MaxOf(reachable);
    var n := Round(m);
    assert n > bound <==> n >= bound + 1;
  }

  lemma SmallExcessPasses()
    ensures Verdict(Some(1_000), [1_000.25]) == OK && 1_000.25 in [1_000.25] && 1_000.25 > 1_000 as real
  {
    assert MaxOf([1_000.25]) == 1_000.25;
    ReportedAboveIff([1_000.25], 1_000);
  }
}
