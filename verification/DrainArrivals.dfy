/** The rows that arrive after a turn's answer, read from one transcript. Times are
    milliseconds. */
module DrainArrivals {
  import opened Common

  datatype Kind = Kind(kind: string, subtype: Option<string>)

  /** A timestamped transcript row; `prompt` says that it carries a prompt id. */
  datatype Row = Row(kind: Kind, meta: bool, sidechain: bool, prompt: bool, cli: bool, time: real)

  type Turn = seq<Row>

  // ---- turns ----

  /** The row a caller's prompt writes. */
  predicate StartsTurn(row: Row) {
    row.kind.kind == "user" && !row.meta && !row.sidechain && row.prompt
  }

  function Starts(rows: seq<Row>): (r: seq<nat>)
    ensures forall p :: 0 <= p < |r| ==> r[p] < |rows| && StartsTurn(rows[r[p]])
    ensures forall p, q :: 0 <= p < q < |r| ==> r[p] < r[q]
  {
    if rows == [] then []
    else
      var n := |rows| - 1;
      var before := Starts(rows[..n]);
      if StartsTurn(rows[n]) then before + [n] else before
  }

  lemma {:induction false} StartIsListed(rows: seq<Row>, i: nat) returns (p: nat)
    requires i < |rows| && StartsTurn(rows[i])
    ensures p < |Starts(rows)| && Starts(rows)[p] == i
    decreases |rows|
  {
    var n := |rows| - 1;
    if i == n {
      p := |Starts(rows)| - 1;
    } else {
      p := StartIsListed(rows[..n], i);
    }
  }

  /** The rows that are not a sidechain's. */
  function Main(rows: seq<Row>): (r: seq<Row>)
    ensures forall k :: 0 <= k < |r| ==> !r[k].sidechain && r[k] in rows
  {
    if rows == [] then []
    else if rows[0].sidechain then Main(rows[1..]) else [rows[0]] + Main(rows[1..])
  }

  function End(rows: seq<Row>, starts: seq<nat>, p: nat): nat {
    if p + 1 < |starts| then starts[p + 1] else |rows|
  }

  function Turns(rows: seq<Row>): seq<Turn> {
    var starts := Starts(rows);
    seq(|starts|, p requires 0 <= p < |starts| => Main(rows[starts[p]..End(rows, starts, p)]))
  }

  lemma {:induction false} MainAppend(a: seq<Row>, b: seq<Row>)
    ensures Main(a + b) == Main(a) + Main(b)
    decreases |a|
  {
    if a == [] {
      assert a + b == b;
    } else {
      assert (a + b)[1..] == a[1..] + b;
      MainAppend(a[1..], b);
    }
  }

  lemma {:induction false} TurnsCoverFrom(rows: seq<Row>, starts: seq<nat>, turns: seq<Turn>, p: nat)
    requires starts == Starts(rows) && turns == Turns(rows) && p < |starts|
    ensures Flatten(turns[p..]) == Main(rows[starts[p]..])
    decreases |starts| - p
  {
    var end := End(rows, starts, p);
    var tail := turns[p..];
    assert tail[0] == Main(rows[starts[p]..end]) && tail[1..] == turns[p + 1..];
    if p + 1 < |starts| {
      TurnsCoverFrom(rows, starts, turns, p + 1);
      assert rows[starts[p]..] == rows[starts[p]..end] + rows[end..];
      MainAppend(rows[starts[p]..end], rows[end..]);
    } else {
      assert rows[starts[p]..end] == rows[starts[p]..];
      assert Flatten(tail[1..]) == [];
    }
  }

  /** Every row from the first prompt on is in exactly one turn, in order, unless it
      is a sidechain's. */
  lemma TurnsCover(rows: seq<Row>)
    ensures Flatten(Turns(rows)) == if Starts(rows) == [] then [] else Main(rows[Starts(rows)[0]..])
  {
    if Starts(rows) != [] {
      TurnsCoverFrom(rows, Starts(rows), Turns(rows), 0);
      assert Turns(rows)[0..] == Turns(rows);
    }
  }

  /** A turn begins with its caller's prompt -- a user row with a prompt id, neither meta
      nor a sidechain's -- and holds no other. */
  lemma TurnHasOnePrompt(rows: seq<Row>, p: nat)
    requires p < |Turns(rows)|
    ensures Turns(rows)[p] != []
    ensures forall k :: 0 <= k < |Turns(rows)[p]| ==>
              var row := Turns(rows)[p][k];
              (row.kind.kind == "user" && !row.meta && !row.sidechain && row.prompt <==> k == 0)
  {
    TurnStarts(rows, p);
    assert forall row :: StartsTurn(row) <==> row.kind.kind == "user" && !row.meta && !row.sidechain && row.prompt;
  }

  lemma TurnStarts(rows: seq<Row>, p: nat)
    requires p < |Turns(rows)|
    ensures var turn := Turns(rows)[p];
            turn != [] && StartsTurn(turn[0]) && forall k :: 0 < k < |turn| ==> !StartsTurn(turn[k])
  {
    var starts := Starts(rows);
    var part := rows[starts[p]..End(rows, starts, p)];
    assert part[0] == rows[starts[p]];
    assert Main(part) == [part[0]] + Main(part[1..]);
    forall k | 0 < k < |Main(part)| ensures !StartsTurn(Main(part)[k]) {
      assert Main(part)[k] == Main(part[1..])[k - 1];
      var row := Main(part)[k];
      assert row in part[1..];
      var j :| 0 <= j < |part[1..]| && part[1..][j] == row;
      NoStartBetween(rows, p, starts[p] + 1 + j);
    }
  }

  lemma NoStartBetween(rows: seq<Row>, p: nat, i: nat)
    requires p < |Starts(rows)| && Starts(rows)[p] < i < End(rows, Starts(rows), p) && i < |rows|
    ensures !StartsTurn(rows[i])
  {
    if StartsTurn(rows[i]) {
      var q := StartIsListed(rows, i);
    }
  }

  /** Exactly the sidechain rows are left out, however often a row occurs. */
  lemma {:induction false} MainLeavesOut(rows: seq<Row>, row: Row)
    ensures multiset(Main(rows))[row] == if row.sidechain then 0 else multiset(rows)[row]
    decreases |rows|
  {
    if rows != [] {
      MainLeavesOut(rows[1..], row);
      assert rows == [rows[0]] + rows[1..];
    }
  }

  /** A row from the first prompt on is in some turn exactly when it is not a
      sidechain's; before the first prompt there is no turn. */
  lemma RowIsInTurn(rows: seq<Row>, first: nat, row: Row)
    requires first <= |rows| && (first < |rows| ==> StartsTurn(rows[first]))
    requires forall i :: 0 <= i < first ==> !StartsTurn(rows[i])
    ensures (exists p :: 0 <= p < |Turns(rows)| && row in Turns(rows)[p]) <==>
            row in rows[first..] && !row.sidechain
  {
    var starts := Starts(rows);
    FlattenHas(Turns(rows), row);
    TurnsCover(rows);
    if first < |rows| {
      var p := StartIsListed(rows, first);
      assert starts[0] == first;
      MainLeavesOut(rows[first..], row);
      assert row in Main(rows[first..]) <==> row in multiset(Main(rows[first..]));
      assert row in rows[first..] <==> row in multiset(rows[first..]);
    }
  }

  // ---- arrivals ----

  /** One row after the answer: its gap to the row before it, and its offset from
      the answer. */
  datatype Arrival = Arrival(gap: real, kind: Kind, sinceCandidate: real)

  predicate IsAssistant(row: Row) {
    row.kind.kind == "assistant"
  }

  /** The index of the last assistant row, or -1. */
  function LastAssistant(turn: Turn): (r: int)
    ensures -1 <= r < |turn|
    ensures r >= 0 ==> IsAssistant(turn[r])
    ensures forall k :: r < k < |turn| ==> !IsAssistant(turn[k])
  {
    if turn == [] then -1
    else if IsAssistant(turn[|turn| - 1]) then |turn| - 1
    else LastAssistant(turn[..|turn| - 1])
  }

  /** What the row at `k` is as an arrival after the answer at `a`. */
  function ArrivalAt(turn: Turn, a: nat, k: nat): Arrival
    requires a < k < |turn|
  {
    Arrival(turn[k].time - turn[k - 1].time, turn[k].kind, turn[k].time - turn[a].time)
  }

  function TurnArrivals(turn: Turn): seq<Arrival> {
    var a := LastAssistant(turn);
    if a < 0 then []
    else seq(|turn| - 1 - a, k requires 0 <= k < |turn| - 1 - a => ArrivalAt(turn, a, a + 1 + k))
  }

  method PostAnswerArrivals(turn: Turn) returns (arrivals: seq<Arrival>)
    ensures arrivals == TurnArrivals(turn)
  {
    var last := -1;
    for i := 0 to |turn|
      invariant -1 <= last < i
      invariant last >= 0 ==> IsAssistant(turn[last])
      invariant forall k :: last < k < i ==> !IsAssistant(turn[k])
    {
      if IsAssistant(turn[i]) {
        last := i;
      }
    }
    arrivals := [];
    if last < 0 {
      return;
    }
    var tail := turn[last..];
    var candidate := tail[0].time;
    for k := 1 to |tail|
      invariant |arrivals| == k - 1
      invariant forall j :: 0 <= j < |arrivals| ==> arrivals[j] == ArrivalAt(turn, last, last + 1 + j)
    {
      var earlier, later := tail[k - 1], tail[k];
      arrivals := arrivals + [Arrival(later.time - earlier.time, later.kind, later.time - candidate)];
    }
  }

  function SumGaps(arrivals: seq<Arrival>): real {
    if arrivals == [] then 0.0 else SumGaps(arrivals[..|arrivals| - 1]) + arrivals[|arrivals| - 1].gap
  }

  /** The arrivals are the rows after the last assistant row, each with its gap to the row
      before it, its kind, and its offset from that assistant row. */
  lemma TurnArrivalsAt(turn: Turn, k: nat)
    requires k < |TurnArrivals(turn)|
    ensures var a := LastAssistant(turn);
            && a >= 0 && |TurnArrivals(turn)| == |turn| - a - 1
            && TurnArrivals(turn)[k].gap == turn[a + 1 + k].time - turn[a + k].time
            && TurnArrivals(turn)[k].kind == turn[a + 1 + k].kind
            && TurnArrivals(turn)[k].sinceCandidate == turn[a + 1 + k].time - turn[a].time
  {
  }

  /** The gaps of a turn add up to the last arrival's offset from the answer: no
      stretch of time after the answer is counted twice or missed. */
  lemma {:induction false} GapsAddUp(turn: Turn, n: nat)
    requires n <= |TurnArrivals(turn)|
    ensures SumGaps(TurnArrivals(turn)[..n]) == if n == 0 then 0.0 else TurnArrivals(turn)[n - 1].sinceCandidate
  {
    var all := TurnArrivals(turn);
    if n > 0 {
      GapsAddUp(turn, n - 1);
      assert all[..n][..n - 1] == all[..n - 1];
      TurnArrivalsAt(turn, n - 1);
      if n > 1 {
        TurnArrivalsAt(turn, n - 2);
      }
    }
  }

  /** An answer that follows the answer moves the candidate, so it is never counted
      as an arrival, whatever the table of kinds says about assistant rows. */
  lemma NoArrivalIsAnAnswer(turn: Turn, k: nat)
    requires k < |TurnArrivals(turn)|
    ensures TurnArrivals(turn)[k].kind.kind != "assistant"
  {
    TurnArrivalsAt(turn, k);
    assert !IsAssistant(turn[LastAssistant(turn) + 1 + k]);
  }
}
