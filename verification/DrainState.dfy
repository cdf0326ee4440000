/** What one version's transcripts, or the pool's, have been measured to hold. */
module DrainState {
  import opened Common
  import opened DrainArrivals

  datatype KindInfo = KindInfo(reachable: bool, retrospective: bool)

  /** The classified row kinds. */
  type Table = map<Kind, KindInfo>

  const TURN_DURATION := Kind("system", Some("turn_duration"))

  // ---- what the turns say, without any state ----

  function ArrivalsOf(turns: seq<Turn>): seq<Arrival> {
    if turns == [] then [] else ArrivalsOf(turns[..|turns| - 1]) + TurnArrivals(turns[|turns| - 1])
  }

  /** The gaps of the arrivals whose kind is among `kinds`, in order. */
  function GapsIn(arrivals: seq<Arrival>, kinds: set<Kind>): seq<real> {
    if arrivals == [] then []
    else
      var last := arrivals[|arrivals| - 1];
      GapsIn(arrivals[..|arrivals| - 1], kinds) + if last.kind in kinds then [last.gap] else []
  }

  predicate Unknown(table: Table, a: Arrival) {
    a.kind !in table
  }

  /** A kind whose rows are said to predate the answer, stamped after it. */
  predicate Misplaced(table: Table, a: Arrival) {
    a.kind in table && table[a.kind].retrospective && a.sinceCandidate > 0.0
  }

  predicate IsCliTurn(turn: Turn) {
    (exists k :: 0 <= k < |turn| && IsAssistant(turn[k])) && exists k :: 0 <= k < |turn| && turn[k].cli
  }

  predicate Marked(turn: Turn) {
    exists k :: 0 <= k < |turn| && turn[k].kind == TURN_DURATION
  }

  function CliTurns(turns: seq<Turn>, unmarked: bool): nat {
    if turns == [] then 0
    else
      var last := turns[|turns| - 1];
      CliTurns(turns[..|turns| - 1], unmarked) + if IsCliTurn(last) && (unmarked ==> !Marked(last)) then 1 else 0
  }

  function CliTurnsAt(turns: seq<Turn>, unmarked: bool): set<nat> {
    set k: nat | k < |turns| && IsCliTurn(turns[k]) && (unmarked ==> !Marked(turns[k]))
  }

  lemma {:induction false} CliTurnsCount(turns: seq<Turn>, unmarked: bool, f: Turn -> bool)
    requires forall t :: f(t) <==> IsCliTurn(t) && (unmarked ==> !Marked(t))
    ensures CliTurns(turns, unmarked) == CountIf(turns, f)
  {
    if turns != [] {
      CliTurnsCount(turns[..|turns| - 1], unmarked, f);
    }
  }

  /** The counters hold the number of turns with an assistant row and a row from the
      command line; the second leaves out those with a turn-duration marker. */
  lemma CliTurnsAre(turns: seq<Turn>, unmarked: bool, k: nat)
    ensures CliTurns(turns, unmarked) == |CliTurnsAt(turns, unmarked)|
    ensures k in CliTurnsAt(turns, unmarked) <==>
              && k < |turns|
              && (exists i :: 0 <= i < |turns[k]| && turns[k][i].kind.kind == "assistant")
              && (exists i :: 0 <= i < |turns[k]| && turns[k][i].cli)
              && (unmarked ==> forall i :: 0 <= i < |turns[k]| ==>
                    turns[k][i].kind != Kind("system", Some("turn_duration")))
  {
    var f := (t: Turn) => IsCliTurn(t) && (unmarked ==> !Marked(t));
    CliTurnsCount(turns, unmarked, f);
    CountIfIsSize(turns, f);
    assert CliTurnsAt(turns, unmarked) == IndicesIf(turns, f);
  }

  function DrainPrice(turn: Turn): Option<(bool, bool)> {
    if exists k :: 0 <= k < |turn| && IsAssistant(turn[k])
    then Some((exists k :: 0 <= k < |turn| && turn[k].cli, !Marked(turn)))
    else None
  }

  // ---- the state ----

  function GapsAt(byKind: map<Kind, seq<real>>, k: Kind): seq<real> {
    if k in byKind then byKind[k] else []
  }

  /** The table of gaps holds exactly the arrivals, kind by kind, in order. */
  ghost predicate Files(byKind: map<Kind, seq<real>>, arrivals: seq<Arrival>) {
    forall k :: FilesKind(byKind, arrivals, k)
  }

  ghost predicate FilesKind(byKind: map<Kind, seq<real>>, arrivals: seq<Arrival>, k: Kind) {
    GapsAt(byKind, k) == GapsIn(arrivals, {k}) && (k in byKind <==> GapsIn(arrivals, {k}) != [])
  }

  /** A kind has gaps exactly when some arrival is of that kind. */
  lemma {:induction false} KindArrives(arrivals: seq<Arrival>, k: Kind)
    ensures GapsIn(arrivals, {k}) != [] <==> exists i :: 0 <= i < |arrivals| && arrivals[i].kind == k
  {
    if arrivals != [] {
      var n := |arrivals| - 1;
      KindArrives(arrivals[..n], k);
      if arrivals[n].kind != k {
        assert GapsIn(arrivals, {k}) == GapsIn(arrivals[..n], {k});
        assert forall i :: 0 <= i < n ==> arrivals[..n][i] == arrivals[i];
      }
    }
  }

  /** How many arrivals of one kind are unknown, or misplaced. */
  function Tally(table: Table, arrivals: seq<Arrival>, misplaced: bool, k: Kind): nat {
    if arrivals == [] then 0
    else
      var last := arrivals[|arrivals| - 1];
      Tally(table, arrivals[..|arrivals| - 1], misplaced, k) + if Tallied(table, last, misplaced, k) then 1 else 0
  }

  predicate Tallied(table: Table, a: Arrival, misplaced: bool, k: Kind) {
    a.kind == k && if misplaced then Misplaced(table, a) else Unknown(table, a)
  }

  lemma {:induction false} TallyArrives(table: Table, arrivals: seq<Arrival>, misplaced: bool, k: Kind)
    ensures Tally(table, arrivals, misplaced, k) > 0 <==>
            exists i :: 0 <= i < |arrivals| && Tallied(table, arrivals[i], misplaced, k)
  {
    if arrivals != [] {
      var n := |arrivals| - 1;
      TallyArrives(table, arrivals[..n], misplaced, k);
      assert forall i :: 0 <= i < n ==> arrivals[..n][i] == arrivals[i];
    }
  }

  function TalliedAt(table: Table, arrivals: seq<Arrival>, misplaced: bool, k: Kind): set<nat> {
    set i: nat | i < |arrivals| && Tallied(table, arrivals[i], misplaced, k)
  }

  lemma {:induction false} TallyCounts(table: Table, arrivals: seq<Arrival>, misplaced: bool, k: Kind,
                                       f: Arrival -> bool)
    requires forall a :: f(a) <==> Tallied(table, a, misplaced, k)
    ensures Tally(table, arrivals, misplaced, k) == CountIf(arrivals, f)
  {
    if arrivals != [] {
      TallyCounts(table, arrivals[..|arrivals| - 1], misplaced, k, f);
    }
  }

  /** A tally is the number of arrivals of that kind that the table does not hold, or
      that it calls retrospective and that are stamped after the answer. */
  lemma TallyIs(table: Table, arrivals: seq<Arrival>, misplaced: bool, k: Kind, i: nat)
    ensures Tally(table, arrivals, misplaced, k) == |TalliedAt(table, arrivals, misplaced, k)|
    ensures i in TalliedAt(table, arrivals, misplaced, k) <==>
              && i < |arrivals| && arrivals[i].kind == k
              && if misplaced then k in table && table[k].retrospective && arrivals[i].sinceCandidate > 0.0
                 else k !in table
  {
    var f := (a: Arrival) => Tallied(table, a, misplaced, k);
    TallyCounts(table, arrivals, misplaced, k, f);
    CountIfIsSize(arrivals, f);
    assert TalliedAt(table, arrivals, misplaced, k) == IndicesIf(arrivals, f);
  }

  function GapAt(arrivals: seq<Arrival>, kinds: set<Kind>, x: real): set<nat> {
    set i: nat | i < |arrivals| && arrivals[i].kind in kinds && arrivals[i].gap == x
  }

  lemma {:induction false} GapsCount(arrivals: seq<Arrival>, kinds: set<Kind>, x: real, f: Arrival -> bool)
    requires forall a :: f(a) <==> a.kind in kinds && a.gap == x
    ensures multiset(GapsIn(arrivals, kinds))[x] == CountIf(arrivals, f)
  {
    if arrivals != [] {
      GapsCount(arrivals[..|arrivals| - 1], kinds, x, f);
    }
  }

  /** Every gap is kept as often as it arrived. */
  lemma GapIsKept(arrivals: seq<Arrival>, kinds: set<Kind>, x: real)
    ensures multiset(GapsIn(arrivals, kinds))[x] == |GapAt(arrivals, kinds, x)|
  {
    var f := (a: Arrival) => a.kind in kinds && a.gap == x;
    GapsCount(arrivals, kinds, x, f);
    CountIfIsSize(arrivals, f);
    assert GapAt(arrivals, kinds, x) == IndicesIf(arrivals, f);
  }

  function CountAt(counts: map<Kind, nat>, k: Kind): nat {
    if k in counts then counts[k] else 0
  }

  /** A counter holds exactly the kinds that were tallied, with their numbers. */
  ghost predicate Counts(table: Table, arrivals: seq<Arrival>, misplaced: bool, counts: map<Kind, nat>) {
    forall k :: CountsKind(table, arrivals, misplaced, counts, k)
  }

  ghost predicate CountsKind(table: Table, arrivals: seq<Arrival>, misplaced: bool, counts: map<Kind, nat>, k: Kind) {
    CountAt(counts, k) == Tally(table, arrivals, misplaced, k) && (k in counts <==> CountAt(counts, k) > 0)
  }

  function Counted(table: Table, a: Arrival, misplaced: bool, counts: map<Kind, nat>): map<Kind, nat> {
    if Tallied(table, a, misplaced, a.kind) then counts[a.kind := CountAt(counts, a.kind) + 1] else counts
  }

  lemma FilesNext(byKind: map<Kind, seq<real>>, arrivals: seq<Arrival>, a: Arrival)
    requires Files(byKind, arrivals)
    ensures Files(byKind[a.kind := GapsAt(byKind, a.kind) + [a.gap]], arrivals + [a])
  {
    var all := arrivals + [a];
    assert all[..|arrivals|] == arrivals && all[|arrivals|] == a;
    var next := byKind[a.kind := GapsAt(byKind, a.kind) + [a.gap]];
    forall k ensures FilesKind(next, all, k) {
      assert FilesKind(byKind, arrivals, k);
      assert GapsIn(arrivals, {k}) + [] == GapsIn(arrivals, {k});
    }
  }

  lemma CountsNext(table: Table, arrivals: seq<Arrival>, a: Arrival, misplaced: bool, counts: map<Kind, nat>)
    requires Counts(table, arrivals, misplaced, counts)
    ensures Counts(table, arrivals + [a], misplaced, Counted(table, a, misplaced, counts))
  {
    assert (arrivals + [a])[..|arrivals|] == arrivals;
    forall k ensures CountsKind(table, arrivals + [a], misplaced, Counted(table, a, misplaced, counts), k) {
      assert CountsKind(table, arrivals, misplaced, counts, k);
    }
  }

  class VersionState {
    var files: nat
    var turns: nat
    var cliTurns: nat
    var unmarkedCliTurns: nat
    var byKind: map<Kind, seq<real>>
    var unknownKinds: map<Kind, nat>
    var notRetrospective: map<Kind, nat>

    constructor (table: Table)
      ensures Shows(table, 0, [])
    {
      files, turns, cliTurns, unmarkedCliTurns := 0, 0, 0, 0;
      byKind, unknownKinds, notRetrospective := map[], map[], map[];
    }

    ghost predicate ShowsTurns(t: seq<Turn>) reads this {
      turns == |t| && cliTurns == CliTurns(t, false) && unmarkedCliTurns == CliTurns(t, true)
    }

    ghost predicate ShowsArrivals(table: Table, arrivals: seq<Arrival>) reads this {
      && Files(byKind, arrivals)
      && Counts(table, arrivals, false, unknownKinds) && Counts(table, arrivals, true, notRetrospective)
    }

    /** The state is what these turns say. */
    ghost predicate Shows(table: Table, n: nat, t: seq<Turn>) reads this {
      files == n && ShowsTurns(t) && ShowsArrivals(table, ArrivalsOf(t))
    }

    method AddArrival(table: Table, a: Arrival, ghost before: seq<Arrival>)
      requires ShowsArrivals(table, before)
      modifies this`byKind, this`unknownKinds, this`notRetrospective
      ensures ShowsArrivals(table, before + [a])
    {
      FilesNext(byKind, before, a);
      CountsNext(table, before, a, false, unknownKinds);
      CountsNext(table, before, a, true, notRetrospective);
      if a.kind !in table {
        unknownKinds := unknownKinds[a.kind := CountAt(unknownKinds, a.kind) + 1];
      } else if table[a.kind].retrospective && a.sinceCandidate > 0.0 {
        notRetrospective := notRetrospective[a.kind := CountAt(notRetrospective, a.kind) + 1];
      }
      byKind := byKind[a.kind := GapsAt(byKind, a.kind) + [a.gap]];
    }

    method AddPrice(turn: Turn, ghost t: seq<Turn>)
      requires ShowsTurns(t)
      modifies this`turns, this`cliTurns, this`unmarkedCliTurns
      ensures ShowsTurns(t + [turn])
    {
      assert (t + [turn])[..|t|] == t;
      turns := turns + 1;
      var price := DrainPrice(turn);
      if price.Some? && price.value.0 {
        cliTurns := cliTurns + 1;
        if price.value.1 {
          unmarkedCliTurns := unmarkedCliTurns + 1;
        }
      }
    }

    method AddArrivals(table: Table, arrivals: seq<Arrival>, ghost before: seq<Arrival>)
      requires ShowsArrivals(table, before)
      modifies this`byKind, this`unknownKinds, this`notRetrospective
      ensures ShowsArrivals(table, before + arrivals)
    {
      assert before + arrivals[..0] == before;
      for k := 0 to |arrivals|
        invariant ShowsArrivals(table, before + arrivals[..k])
      {
        assert before + arrivals[..k] + [arrivals[k]] == before + arrivals[..k + 1];
        AddArrival(table, arrivals[k], before + arrivals[..k]);
      }
      assert before + arrivals[..|arrivals|] == before + arrivals;
    }

    method AddTurn(table: Table, turn: Turn, ghost t: seq<Turn>)
      requires ShowsTurns(t) && ShowsArrivals(table, ArrivalsOf(t))
      modifies this
      ensures files == old(files) && ShowsTurns(t + [turn]) && ShowsArrivals(table, ArrivalsOf(t + [turn]))
    {
      AddPrice(turn, t);
      var arrivals := PostAnswerArrivals(turn);
      AddArrivals(table, arrivals, ArrivalsOf(t));
      assert (t + [turn])[..|t|] == t;
    }

    /** Folds one admitted transcript into the state. */
    method Accumulate(table: Table, rows: seq<Row>, ghost n: nat, ghost t: seq<Turn>)
      requires Shows(table, n, t)
      modifies this
      ensures Shows(table, n + 1, t + Turns(rows))
    {
      files := files + 1;
      AddTurns(table, Turns(rows), t);
    }

    method AddTurns(table: Table, more: seq<Turn>, ghost t: seq<Turn>)
      requires ShowsTurns(t) && ShowsArrivals(table, ArrivalsOf(t))
      modifies this
      ensures files == old(files) && ShowsTurns(t + more) && ShowsArrivals(table, ArrivalsOf(t + more))
    {
      ghost var seen := t;
      for k := 0 to |more|
        invariant seen == t + more[..k]
        invariant files == old(files) && ShowsTurns(seen) && ShowsArrivals(table, ArrivalsOf(seen))
      {
        AddTurn(table, more[k], seen);
        seen := seen + [more[k]];
      }
      assert seen == t + more;
    }
  }

  // ---- the report ----

  function MaxOf(s: seq<real>): (r: real)
    requires s != []
    ensures r in s && forall x :: x in s ==> x <= r
  {
    if |s| == 1 then s[0]
    else
      var m := MaxOf(s[1..]);
      assert s == [s[0]] + s[1..];
      if s[0] > m then s[0] else m
  }

  const MARGIN: real := 2.0
  const STEP: int := 250

  function Ceil(x: real): (n: int)
    ensures (n - 1) as real < x <= n as real
  {
    -((-x).Floor)
  }

  /** The margin times the largest arrival, rounded up; nothing when there was none. */
  function Recommend(reachable: seq<real>): (r: Option<int>)
    ensures r.None? <==> reachable == []
  {
    if reachable == [] then None
    else Some(RoundUp(MaxOf(reachable) * MARGIN))
  }

  function RoundUp(x: real): (r: int)
    ensures r % STEP == 0 && (r - STEP) as real < x <= r as real
  {
    Ceil(x / STEP as real) * STEP
  }

  /** A recommendation covers every arrival with the margin, and no smaller multiple
      of the step does. */
  lemma RecommendIsLeast(reachable: seq<real>, m: int)
    requires reachable != [] && m % 250 == 0
    ensures Recommend(reachable).value % 250 == 0
    ensures Recommend(reachable).value <= m <==> forall x :: x in reachable ==> 2.0 * x <= m as real
  {
    var r := Recommend(reachable).value;
    var top := MaxOf(reachable);
    assert top in reachable && (r - STEP) as real < top * MARGIN <= r as real;
    if MARGIN * top <= m as real {
      assert (r - STEP) as real < m as real;
    }
  }

  /** Only which arrivals there were matters, not their order or number. */
  lemma RecommendSame(a: seq<real>, b: seq<real>)
    requires forall x :: x in a <==> x in b
    ensures Recommend(a) == Recommend(b)
  {
    assert a != [] ==> a[0] in a;
    assert b != [] ==> b[0] in b;
    if a != [] {
      assert MaxOf(a) in b && MaxOf(b) in a;
    }
  }

  function Kinds(table: Table, reachable: bool): set<Kind> {
    set k | k in table && table[k].reachable == reachable
  }

  /** Adding one kind adds exactly its gaps. */
  lemma {:induction false} GapsInAdd(arrivals: seq<Arrival>, kinds: set<Kind>, k: Kind)
    requires k !in kinds
    ensures multiset(GapsIn(arrivals, kinds + {k})) ==
            multiset(GapsIn(arrivals, kinds)) + multiset(GapsIn(arrivals, {k}))
  {
    if arrivals != [] {
      GapsInAdd(arrivals[..|arrivals| - 1], kinds, k);
    }
  }

  lemma {:induction false} GapsInSame(arrivals: seq<Arrival>, a: set<Kind>, b: set<Kind>)
    requires forall i :: 0 <= i < |arrivals| ==> (arrivals[i].kind in a <==> arrivals[i].kind in b)
    ensures GapsIn(arrivals, a) == GapsIn(arrivals, b)
  {
    if arrivals != [] {
      GapsInSame(arrivals[..|arrivals| - 1], a, b);
    }
  }

  datatype Report = Report(reachable: seq<real>, unreachable: seq<real>, balances: bool, recommended: Option<int>)

  /** The gaps of the kinds looked at so far, each in the part its kind belongs to. */
  ghost predicate Parts(table: Table, arrivals: seq<Arrival>, done: set<Kind>,
                        reachable: seq<real>, unreachable: seq<real>) {
    && multiset(reachable) == multiset(GapsIn(arrivals, Kinds(table, true) * done))
    && multiset(unreachable) == multiset(GapsIn(arrivals, Kinds(table, false) * done))
  }

  lemma {:induction false} NoKinds(arrivals: seq<Arrival>)
    ensures GapsIn(arrivals, {}) == []
  {
    if arrivals != [] {
      NoKinds(arrivals[..|arrivals| - 1]);
    }
  }

  lemma PartsStart(table: Table, arrivals: seq<Arrival>)
    ensures Parts(table, arrivals, {}, [], [])
  {
    NoKinds(arrivals);
    assert Kinds(table, true) * {} == {} && Kinds(table, false) * {} == {};
  }

  lemma PartsNext(table: Table, arrivals: seq<Arrival>, done: set<Kind>,
                  k: Kind, reachable: seq<real>, unreachable: seq<real>)
    requires k in table && k !in done && Parts(table, arrivals, done, reachable, unreachable)
    ensures var gaps := GapsIn(arrivals, {k});
            if table[k].reachable then Parts(table, arrivals, done + {k}, reachable + gaps, unreachable)
            else Parts(table, arrivals, done + {k}, reachable, unreachable + gaps)
  {
    var part, other := Kinds(table, table[k].reachable), Kinds(table, !table[k].reachable);
    assert part * (done + {k}) == part * done + {k};
    assert other * (done + {k}) == other * done;
    GapsInAdd(arrivals, part * done, k);
  }

  lemma PartsDone(table: Table, arrivals: seq<Arrival>, done: set<Kind>, reachable: seq<real>, unreachable: seq<real>)
    requires Parts(table, arrivals, done, reachable, unreachable)
    requires forall i :: 0 <= i < |arrivals| ==> arrivals[i].kind in done
    ensures multiset(reachable) == multiset(GapsIn(arrivals, Kinds(table, true)))
    ensures multiset(unreachable) == multiset(GapsIn(arrivals, Kinds(table, false)))
  {
    GapsInSame(arrivals, Kinds(table, true) * done, Kinds(table, true));
    GapsInSame(arrivals, Kinds(table, false) * done, Kinds(table, false));
  }

  lemma AllFiled(byKind: map<Kind, seq<real>>, arrivals: seq<Arrival>)
    requires Files(byKind, arrivals)
    ensures forall i :: 0 <= i < |arrivals| ==> arrivals[i].kind in byKind
  {
    forall i | 0 <= i < |arrivals| ensures arrivals[i].kind in byKind {
      KindArrives(arrivals, arrivals[i].kind);
      assert FilesKind(byKind, arrivals, arrivals[i].kind);
    }
  }

  lemma {:induction false} PartsAreAll(table: Table, arrivals: seq<Arrival>)
    requires forall i :: 0 <= i < |arrivals| ==> arrivals[i].kind in table
    ensures |GapsIn(arrivals, Kinds(table, true))| + |GapsIn(arrivals, Kinds(table, false))| == |arrivals|
  {
    if arrivals != [] {
      PartsAreAll(table, arrivals[..|arrivals| - 1]);
    }
  }

  /** One kind's gaps go to the part the table names. */
  method TakeKind(table: Table, gaps: seq<real>, k: Kind, reachable: seq<real>, unreachable: seq<real>,
                  ghost arrivals: seq<Arrival>, ghost done: set<Kind>)
    returns (more: seq<real>, others: seq<real>)
    requires k in table && k !in done && gaps == GapsIn(arrivals, {k})
    requires Parts(table, arrivals, done, reachable, unreachable)
    ensures Parts(table, arrivals, done + {k}, more, others)
    ensures |more| + |others| == |reachable| + |unreachable| + |gaps|
  {
    PartsNext(table, arrivals, done, k, reachable, unreachable);
    if table[k].reachable {
      more, others := reachable + gaps, unreachable;
    } else {
      more, others := reachable, unreachable + gaps;
    }
  }

  method SplitKinds(table: Table, byKind: map<Kind, seq<real>>, ghost arrivals: seq<Arrival>)
    returns (reachable: seq<real>, unreachable: seq<real>, total: nat)
    requires Files(byKind, arrivals)
    requires byKind.Keys <= table.Keys
    ensures Parts(table, arrivals, byKind.Keys, reachable, unreachable)
    ensures total == |reachable| + |unreachable|
  {
    reachable, unreachable, total := [], [], 0;
    var todo := byKind.Keys;
    ghost var done: set<Kind> := {};
    PartsStart(table, arrivals);
    while todo != {}
      invariant todo <= byKind.Keys && done == byKind.Keys - todo
      invariant Parts(table, arrivals, done, reachable, unreachable)
      invariant total == |reachable| + |unreachable|
      decreases todo
    {
      ghost var some := SomeMember(todo);
      var k :| k in todo;
      assert FilesKind(byKind, arrivals, k);
      reachable, unreachable := TakeKind(table, byKind[k], k, reachable, unreachable, arrivals, done);
      total := total + |byKind[k]|;
      done := done + {k};
      todo := todo - {k};
    }
    assert done == byKind.Keys;
  }

  /** Looking every kind up in the table: the two parts hold all the gaps between
      them, each where its kind belongs. */
  method MakeReport(table: Table, byKind: map<Kind, seq<real>>, ghost arrivals: seq<Arrival>) returns (r: Report)
    requires Files(byKind, arrivals)
    requires byKind.Keys <= table.Keys
    ensures multiset(r.reachable) == multiset(GapsIn(arrivals, Kinds(table, true)))
    ensures multiset(r.unreachable) == multiset(GapsIn(arrivals, Kinds(table, false)))
    ensures r.balances && |r.reachable| + |r.unreachable| == |arrivals|
    ensures r.recommended == Recommend(r.reachable)
  {
    var reachable, unreachable, total := SplitKinds(table, byKind, arrivals);
    AllFiled(byKind, arrivals);
    PartsDone(table, arrivals, byKind.Keys, reachable, unreachable);
    PartsAreAll(table, arrivals);
    assert |multiset(reachable)| == |reachable| && |multiset(unreachable)| == |unreachable|;
    r := Report(reachable, unreachable, |reachable + unreachable| == total, Recommend(reachable));
  }
}
