/** Measuring a corpus: one pass over the files, each offered to every version that
    it names and pooled once. */
module DrainMeasurement {
  import opened Common
  import opened DrainArrivals
  import opened DrainState

  /** A transcript's timestamped rows, and every version its rows name. */
  datatype File = File(rows: seq<Row>, versions: set<string>)

  predicate Admitted(file: File, versions: set<string>) {
    file.versions * versions != {}
  }

  /** The turns of the files admitted to any of `versions`. */
  function TurnsFor(files: seq<File>, versions: set<string>): seq<Turn> {
    if files == [] then []
    else
      var last := files[|files| - 1];
      TurnsFor(files[..|files| - 1], versions) + if Admitted(last, versions) then Turns(last.rows) else []
  }

  function FilesFor(files: seq<File>, versions: set<string>): nat {
    if files == [] then 0
    else FilesFor(files[..|files| - 1], versions) + if Admitted(files[|files| - 1], versions) then 1 else 0
  }

  function ArrivalsFor(files: seq<File>, versions: set<string>): seq<Arrival> {
    ArrivalsOf(TurnsFor(files, versions))
  }

  function ReachableFor(table: Table, files: seq<File>, versions: set<string>): seq<real> {
    GapsIn(ArrivalsFor(files, versions), Kinds(table, true))
  }

  function RecommendedFor(table: Table, files: seq<File>, versions: set<string>): Option<int> {
    Recommend(ReachableFor(table, files, versions))
  }

  lemma {:induction false} TurnsAreAdmitted(files: seq<File>, versions: set<string>, turn: Turn, f: File -> bool)
    requires forall x :: f(x) <==> Admitted(x, versions) && turn in Turns(x.rows)
    ensures turn in TurnsFor(files, versions) <==> AnyIf(files, f)
  {
    if files != [] {
      TurnsAreAdmitted(files[..|files| - 1], versions, turn, f);
      AnyIfLast(files, f);
    }
  }

  /** Turns are taken from exactly the files that name one of the versions. */
  lemma TurnIsTakenIff(files: seq<File>, versions: set<string>, turn: Turn)
    ensures turn in TurnsFor(files, versions) <==>
            exists i, v :: && 0 <= i < |files| && v in versions && v in files[i].versions
                           && turn in Turns(files[i].rows)
  {
    var f := (x: File) => Admitted(x, versions) && turn in Turns(x.rows);
    TurnsAreAdmitted(files, versions, turn, f);
    if AnyIf(files, f) {
      var i :| 0 <= i < |files| && f(files[i]);
      AdmittedIff(files[i], versions);
    }
    if i, v :| 0 <= i < |files| && v in versions && v in files[i].versions && turn in Turns(files[i].rows) {
      AdmittedIff(files[i], versions);
      assert f(files[i]);
    }
  }

  lemma {:induction false} FilesCount(files: seq<File>, versions: set<string>, f: File -> bool)
    requires forall x :: f(x) <==> Admitted(x, versions)
    ensures FilesFor(files, versions) == CountIf(files, f)
  {
    if files != [] {
      FilesCount(files[..|files| - 1], versions, f);
    }
  }

  /** Each such file is counted once. */
  lemma FilesAreCounted(files: seq<File>, versions: set<string>)
    ensures FilesFor(files, versions) == |AdmittedAt(files, versions)|
  {
    var f := (x: File) => Admitted(x, versions);
    FilesCount(files, versions, f);
    CountIfIsSize(files, f);
    assert AdmittedAt(files, versions) == IndicesIf(files, f);
  }

  function AdmittedAt(files: seq<File>, versions: set<string>): set<nat> {
    set i: nat | i < |files| && Admitted(files[i], versions)
  }

  lemma AdmittedIff(file: File, versions: set<string>)
    ensures Admitted(file, versions) <==> exists v :: v in versions && v in file.versions
  {
    if v :| v in versions && v in file.versions {
      assert v in file.versions * versions;
    }
  }

  /** What the recommendation is taken over: the gaps of the arrivals, in admitted files,
      whose kind the table calls reachable. */
  lemma ReachableIff(table: Table, files: seq<File>, versions: set<string>, x: real)
    ensures x in ReachableFor(table, files, versions) <==>
            exists a :: && a in ArrivalsFor(files, versions)
                        && a.kind in table && table[a.kind].reachable && a.gap == x
  {
    GapArrives(ArrivalsFor(files, versions), Kinds(table, true), x);
  }

  // ---- the pool holds what its versions hold ----

  ghost predicate InSomeTurn(turns: seq<Turn>, x: Arrival) {
    exists k :: 0 <= k < |turns| && x in TurnArrivals(turns[k])
  }

  lemma InSomeTurnAppend(a: seq<Turn>, b: seq<Turn>, x: Arrival)
    ensures InSomeTurn(a + b, x) <==> InSomeTurn(a, x) || InSomeTurn(b, x)
  {
    var all := a + b;
    if InSomeTurn(a, x) {
      var k :| 0 <= k < |a| && x in TurnArrivals(a[k]);
      assert all[k] == a[k];
    }
    if InSomeTurn(b, x) {
      var k :| 0 <= k < |b| && x in TurnArrivals(b[k]);
      assert all[|a| + k] == b[k];
    }
    if InSomeTurn(all, x) {
      var k :| 0 <= k < |all| && x in TurnArrivals(all[k]);
      assert if k < |a| then all[k] == a[k] else all[k] == b[k - |a|];
    }
  }

  lemma InEither(a: seq<Arrival>, b: seq<Arrival>, x: Arrival)
    ensures x in a + b <==> x in a || x in b
  {
  }

  lemma {:induction false} ArrivalsAreOfTurns(turns: seq<Turn>, x: Arrival)
    ensures x in ArrivalsOf(turns) <==> InSomeTurn(turns, x)
    decreases |turns|
  {
    if turns != [] {
      var before, last := turns[..|turns| - 1], turns[|turns| - 1];
      ArrivalsAreOfTurns(before, x);
      InEither(ArrivalsOf(before), TurnArrivals(last), x);
      InSomeTurnAppend(before, [last], x);
      OneTurn(last, x);
      assert before + [last] == turns;
    }
  }

  lemma OneTurn(turn: Turn, x: Arrival)
    ensures InSomeTurn([turn], x) <==> x in TurnArrivals(turn)
  {
    if x in TurnArrivals(turn) {
      assert x in TurnArrivals([turn][0]);
    }
  }

  lemma ArrivalsAppend(a: seq<Turn>, b: seq<Turn>, x: Arrival)
    ensures x in ArrivalsOf(a + b) <==> x in ArrivalsOf(a) || x in ArrivalsOf(b)
  {
    ArrivalsAreOfTurns(a + b, x);
    ArrivalsAreOfTurns(a, x);
    ArrivalsAreOfTurns(b, x);
    InSomeTurnAppend(a, b, x);
  }

  ghost predicate SomeVersion(files: seq<File>, versions: set<string>, a: Arrival) {
    exists v :: v in versions && a in ArrivalsFor(files, {v})
  }

  lemma ArrivalsNext(files: seq<File>, file: File, versions: set<string>, a: Arrival)
    ensures a in ArrivalsFor(files + [file], versions) <==>
            a in ArrivalsFor(files, versions) || (Admitted(file, versions) && a in ArrivalsOf(Turns(file.rows)))
  {
    assert (files + [file])[..|files|] == files;
    ArrivalsAppend(TurnsFor(files, versions), Turns(file.rows), a);
    assert TurnsFor(files, versions) + [] == TurnsFor(files, versions);
  }

  lemma VersionNext(files: seq<File>, file: File, v: string, a: Arrival)
    ensures a in ArrivalsFor(files + [file], {v}) <==>
            a in ArrivalsFor(files, {v}) || (v in file.versions && a in ArrivalsOf(Turns(file.rows)))
  {
    ArrivalsNext(files, file, {v}, a);
    if v in file.versions {
      assert v in file.versions * {v};
    }
  }

  lemma SomeVersionNext(files: seq<File>, file: File, versions: set<string>, a: Arrival)
    ensures SomeVersion(files + [file], versions, a) <==>
            SomeVersion(files, versions, a) || (Admitted(file, versions) && a in ArrivalsOf(Turns(file.rows)))
  {
    if SomeVersion(files, versions, a) {
      var v :| v in versions && a in ArrivalsFor(files, {v});
      VersionNext(files, file, v, a);
    }
    if Admitted(file, versions) && a in ArrivalsOf(Turns(file.rows)) {
      var v :| v in file.versions * versions;
      VersionNext(files, file, v, a);
    }
    if SomeVersion(files + [file], versions, a) {
      var v :| v in versions && a in ArrivalsFor(files + [file], {v});
      VersionNext(files, file, v, a);
      assert v in file.versions ==> v in file.versions * versions;
    }
  }

  /** An arrival is pooled exactly when some version has it, although a file may be
      admitted to several versions and is pooled once. */
  lemma {:induction false} PooledArrivals(files: seq<File>, versions: set<string>, a: Arrival)
    ensures a in ArrivalsFor(files, versions) <==> SomeVersion(files, versions, a)
  {
    if files != [] {
      var before, file := files[..|files| - 1], files[|files| - 1];
      assert before + [file] == files;
      PooledArrivals(before, versions, a);
      ArrivalsNext(before, file, versions, a);
      SomeVersionNext(before, file, versions, a);
    }
  }

  lemma {:induction false} GapArrives(arrivals: seq<Arrival>, kinds: set<Kind>, x: real)
    ensures x in GapsIn(arrivals, kinds) <==> exists a :: a in arrivals && a.kind in kinds && a.gap == x
  {
    if arrivals != [] {
      var before, last := arrivals[..|arrivals| - 1], arrivals[|arrivals| - 1];
      assert arrivals == before + [last];
      GapArrives(before, kinds, x);
    }
  }

  ghost predicate SomeVersionReaches(table: Table, files: seq<File>, versions: set<string>, x: real) {
    exists v :: v in versions && x in ReachableFor(table, files, {v})
  }

  lemma PooledGaps(table: Table, files: seq<File>, versions: set<string>, x: real)
    ensures x in ReachableFor(table, files, versions) <==> SomeVersionReaches(table, files, versions, x)
  {
    var kinds := Kinds(table, true);
    GapArrives(ArrivalsFor(files, versions), kinds, x);
    forall v ensures x in ReachableFor(table, files, {v}) <==>
                     exists a :: a in ArrivalsFor(files, {v}) && a.kind in kinds && a.gap == x {
      GapArrives(ArrivalsFor(files, {v}), kinds, x);
    }
    forall a ensures a in ArrivalsFor(files, versions) <==> SomeVersion(files, versions, a) {
      PooledArrivals(files, versions, a);
    }
    if x in ReachableFor(table, files, versions) {
      var a :| a in ArrivalsFor(files, versions) && a.kind in kinds && a.gap == x;
      assert SomeVersion(files, versions, a);
      var v :| v in versions && a in ArrivalsFor(files, {v});
      assert x in ReachableFor(table, files, {v});
    }
    if SomeVersionReaches(table, files, versions, x) {
      var v :| v in versions && x in ReachableFor(table, files, {v});
      var a :| a in ArrivalsFor(files, {v}) && a.kind in kinds && a.gap == x;
      assert SomeVersion(files, versions, a);
    }
  }

  lemma RecommendMonotone(a: seq<real>, b: seq<real>)
    requires a != [] && b != [] && MaxOf(a) <= MaxOf(b)
    ensures Recommend(a).value <= Recommend(b).value
  {
    RecommendIsLeast(a, Recommend(b).value);
  }

  /** The pooled recommendation is the largest of the versions' recommendations, and
      is absent exactly when all of them are. */
  lemma PooledIsMaximum(table: Table, files: seq<File>, versions: set<string>)
    ensures var pooled := RecommendedFor(table, files, versions);
            && (pooled.None? <==> forall v :: v in versions ==> RecommendedFor(table, files, {v}).None?)
            && (pooled.Some? ==> exists v :: v in versions && RecommendedFor(table, files, {v}) == pooled)
            && (forall v :: v in versions && RecommendedFor(table, files, {v}).Some? ==>
                  pooled.Some? && RecommendedFor(table, files, {v}).value <= pooled.value)
  {
    var all := ReachableFor(table, files, versions);
    forall v | v in versions && ReachableFor(table, files, {v}) != []
      ensures all != [] && RecommendedFor(table, files, {v}).value <= Recommend(all).value
    {
      VersionAtMostPool(table, files, versions, v);
    }
    if all != [] {
      var v := PoolIsReached(table, files, versions);
    }
  }

  lemma VersionAtMostPool(table: Table, files: seq<File>, versions: set<string>, v: string)
    requires v in versions && ReachableFor(table, files, {v}) != []
    ensures ReachableFor(table, files, versions) != []
    ensures RecommendedFor(table, files, {v}).value <= RecommendedFor(table, files, versions).value
  {
    var all, own := ReachableFor(table, files, versions), ReachableFor(table, files, {v});
    var m := MaxOf(own);
    PooledGaps(table, files, versions, m);
    assert SomeVersionReaches(table, files, versions, m);
    RecommendMonotone(own, all);
  }

  lemma PoolIsReached(table: Table, files: seq<File>, versions: set<string>) returns (v: string)
    requires ReachableFor(table, files, versions) != []
    ensures v in versions && RecommendedFor(table, files, {v}) == RecommendedFor(table, files, versions)
  {
    var all := ReachableFor(table, files, versions);
    PooledGaps(table, files, versions, MaxOf(all));
    v :| v in versions && MaxOf(all) in ReachableFor(table, files, {v});
    VersionAtMostPool(table, files, versions, v);
    RecommendMonotone(all, ReachableFor(table, files, {v}));
  }
}
