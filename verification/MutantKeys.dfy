/** A mutant's identity that does not depend on where its code stands: its group
    (file, function, genre, replacement) and its occurrence within the group,
    counted in position order. */
module MutantKeys {
  import opened Common

  /** First and last line, both included. */
  datatype Span = Span(start: int, end: int)

  datatype Group = Group(file: string, func: string, genre: string, replacement: string)

  /** One enumerated mutant; `item` is the item it lives in, when the tool names one. */
  datatype Row = Row(group: Group, line: int, column: int, item: Option<Span>, mutant: Span)

  datatype Key = Key(group: Group, occurrence: int)

  // ---- the sort order ----

  predicate StringBefore(a: string, b: string) {
    b != [] && (a == [] || a[0] < b[0] || (a[0] == b[0] && StringBefore(a[1..], b[1..])))
  }

  predicate GroupBefore(a: Group, b: Group) {
    if a.file != b.file then StringBefore(a.file, b.file)
    else if a.func != b.func then StringBefore(a.func, b.func)
    else if a.genre != b.genre then StringBefore(a.genre, b.genre)
    else StringBefore(a.replacement, b.replacement)
  }

  /** Position order inside a group; rows at one position stay in input order. */
  predicate Before(rows: seq<Row>, i: nat, j: nat)
    requires i < |rows| && j < |rows|
  {
    || rows[i].line < rows[j].line
    || (rows[i].line == rows[j].line &&
        (rows[i].column < rows[j].column || (rows[i].column == rows[j].column && i < j)))
  }

  /** The order of a stable sort by group, line and column. */
  predicate Sorts(rows: seq<Row>, i: nat, j: nat)
    requires i < |rows| && j < |rows|
  {
    if rows[i].group != rows[j].group then GroupBefore(rows[i].group, rows[j].group) else Before(rows, i, j)
  }

  lemma {:induction false} StringOrder(a: string, b: string)
    ensures !StringBefore(a, a)
    ensures a == b || StringBefore(a, b) || StringBefore(b, a)
    ensures !(StringBefore(a, b) && StringBefore(b, a))
    decreases |a| + |b|
  {
    if a != [] {
      StringOrder(a[1..], if b == [] then [] else b[1..]);
      if b != [] && a[0] == b[0] && a[1..] == b[1..] {
        assert a == [a[0]] + a[1..] && b == [b[0]] + b[1..];
      }
    }
  }

  lemma {:induction false} StringTransitive(a: string, b: string, c: string)
    requires StringBefore(a, b) && StringBefore(b, c)
    ensures StringBefore(a, c)
  {
    if a != [] && a[0] == b[0] && b[0] == c[0] {
      StringTransitive(a[1..], b[1..], c[1..]);
    }
  }

  lemma GroupOrder(a: Group, b: Group)
    ensures a == b || GroupBefore(a, b) || GroupBefore(b, a)
    ensures !(GroupBefore(a, b) && GroupBefore(b, a))
  {
    StringOrder(a.file, b.file);
    StringOrder(a.func, b.func);
    StringOrder(a.genre, b.genre);
    StringOrder(a.replacement, b.replacement);
  }

  /** One level of the lexicographic order: transitive, and distinct ends. */
  lemma LevelTransitive(a: string, b: string, c: string)
    requires a == b || StringBefore(a, b)
    requires b == c || StringBefore(b, c)
    ensures a == c || StringBefore(a, c)
    ensures a == c ==> a == b
  {
    StringOrder(a, b);
    if a != b && b != c {
      StringTransitive(a, b, c);
      StringOrder(a, c);
    }
  }

  lemma GroupTransitive(a: Group, b: Group, c: Group)
    requires GroupBefore(a, b) && GroupBefore(b, c)
    ensures GroupBefore(a, c)
  {
    LevelTransitive(a.file, b.file, c.file);
    if a.file == c.file {
      LevelTransitive(a.func, b.func, c.func);
      if a.func == c.func {
        LevelTransitive(a.genre, b.genre, c.genre);
        if a.genre == c.genre {
          StringTransitive(a.replacement, b.replacement, c.replacement);
        }
      }
    }
  }

  lemma SortsIsTotal(rows: seq<Row>, i: nat, j: nat)
    requires i < |rows| && j < |rows|
    ensures i == j || Sorts(rows, i, j) || Sorts(rows, j, i)
    ensures !(Sorts(rows, i, j) && Sorts(rows, j, i))
  {
    GroupOrder(rows[i].group, rows[j].group);
  }

  lemma SortsIsTransitive(rows: seq<Row>, i: nat, j: nat, k: nat)
    requires i < |rows| && j < |rows| && k < |rows|
    requires Sorts(rows, i, j) && Sorts(rows, j, k)
    ensures Sorts(rows, i, k)
  {
    var a, b, c := rows[i].group, rows[j].group, rows[k].group;
    if a != b && b != c {
      GroupTransitive(a, b, c);
      GroupOrder(a, b);
    }
  }

  // ---- sorting ----

  ghost predicate Sorted(rows: seq<Row>, order: seq<nat>) {
    && (forall p :: 0 <= p < |order| ==> order[p] < |rows|)
    && (forall p, q :: 0 <= p < q < |order| ==> Sorts(rows, order[p], order[q]))
  }

  function Insert(rows: seq<Row>, order: seq<nat>, i: nat): (r: seq<nat>)
    requires i < |rows| && forall p :: 0 <= p < |order| ==> order[p] < |rows|
    ensures forall p :: 0 <= p < |r| ==> r[p] < |rows|
    ensures forall j: nat :: j in r <==> j == i || j in order
  {
    if order == [] then [i]
    else if Sorts(rows, i, order[0]) then [i] + order
    else
      assert order == [order[0]] + order[1..];
      [order[0]] + Insert(rows, order[1..], i)
  }

  lemma {:induction false} InsertSorted(rows: seq<Row>, order: seq<nat>, i: nat)
    requires i < |rows| && Sorted(rows, order) && i !in order
    ensures Sorted(rows, Insert(rows, order, i))
  {
    if order != [] {
      var head := order[0];
      SortsIsTotal(rows, i, head);
      if Sorts(rows, i, head) {
        forall q | 0 < q < |order| ensures Sorts(rows, i, order[q]) {
          SortsIsTransitive(rows, i, head, order[q]);
        }
      } else {
        InsertSorted(rows, order[1..], i);
        var tail := Insert(rows, order[1..], i);
        forall q | 0 <= q < |tail| ensures Sorts(rows, head, tail[q]) {
          assert tail[q] in tail;
        }
      }
    }
  }

  function Order(rows: seq<Row>, n: nat): (r: seq<nat>)
    requires n <= |rows|
    ensures forall p :: 0 <= p < |r| ==> r[p] < |rows|
    ensures forall i: nat :: i in r <==> i < n
  {
    if n == 0 then [] else Insert(rows, Order(rows, n - 1), n - 1)
  }

  lemma {:induction false} OrderSorted(rows: seq<Row>, n: nat)
    requires n <= |rows|
    ensures Sorted(rows, Order(rows, n))
  {
    if n > 0 {
      OrderSorted(rows, n - 1);
      InsertSorted(rows, Order(rows, n - 1), n - 1);
    }
  }

  // ---- the key of a row, without sorting ----

  function Members(rows: seq<Row>, g: Group): set<nat> {
    set i: nat | i < |rows| && rows[i].group == g
  }

  /** The rows of the same group that stand before row `i`. */
  function Earlier(rows: seq<Row>, i: nat): set<nat>
    requires i < |rows|
  {
    set j | j in Members(rows, rows[i].group) && Before(rows, j, i)
  }

  function KeyAt(rows: seq<Row>, i: nat): Key
    requires i < |rows|
  {
    Key(rows[i].group, |Earlier(rows, i)| + 1)
  }

  function Keys(rows: seq<Row>): set<Key> {
    set i: nat | i < |rows| :: KeyAt(rows, i)
  }

  /** Those of the first `p` sorted rows that belong to `g`. */
  function Counted(rows: seq<Row>, order: seq<nat>, g: Group): set<nat>
    requires forall p :: 0 <= p < |order| ==> order[p] < |rows|
  {
    set i | i in order && rows[i].group == g
  }

  /** When the sorted pass reaches a row, it has passed exactly the earlier rows
      of its group. */
  lemma PassedAreEarlier(rows: seq<Row>, order: seq<nat>, p: nat)
    requires Sorted(rows, order) && p < |order| && forall i: nat :: i < |rows| ==> i in order
    ensures Counted(rows, order[..p], rows[order[p]].group) == Earlier(rows, order[p])
    ensures order[p] !in order[..p]
  {
    var i := order[p];
    var passed := Counted(rows, order[..p], rows[i].group);
    forall j | j in passed ensures j in Earlier(rows, i) {
      var q :| 0 <= q < p && order[..p][q] == j;
      assert Sorts(rows, order[q], order[p]);
    }
    forall j | j in Earlier(rows, i) ensures j in passed {
      assert j in order;
      var q :| 0 <= q < |order| && order[q] == j;
      SortsIsTotal(rows, i, j);
      assert !Sorts(rows, order[p], order[q]);
      assert order[..p][q] == j;
    }
    SortsIsTotal(rows, i, i);
  }

  function Get(counts: map<Group, nat>, g: Group): nat {
    if g in counts then counts[g] else 0
  }

  ghost predicate CountsMatch(rows: seq<Row>, order: seq<nat>, counts: map<Group, nat>)
    requires forall p :: 0 <= p < |order| ==> order[p] < |rows|
  {
    forall g :: Get(counts, g) == |Counted(rows, order, g)|
  }

  /** `keyed` holds exactly the listed rows, each under its own key. */
  ghost predicate Files(rows: seq<Row>, order: seq<nat>, keyed: map<Key, Row>)
    requires forall p :: 0 <= p < |order| ==> order[p] < |rows|
  {
    && (forall k :: k in keyed ==> exists p :: 0 <= p < |order| && KeyAt(rows, order[p]) == k)
    && (forall p :: 0 <= p < |order| ==>
          KeyAt(rows, order[p]) in keyed && keyed[KeyAt(rows, order[p])] == rows[order[p]])
  }

  lemma FilesNext(rows: seq<Row>, order: seq<nat>, keyed: map<Key, Row>, i: nat)
    requires i < |rows| && i !in order && forall p :: 0 <= p < |order| ==> order[p] < |rows|
    requires Files(rows, order, keyed)
    ensures Files(rows, order + [i], keyed[KeyAt(rows, i) := rows[i]])
  {
    var next := order + [i];
    assert next[|order|] == i;
    forall p | 0 <= p < |order| ensures next[p] == order[p] && KeyAt(rows, next[p]) != KeyAt(rows, i) {
      assert order[p] in order;
      KeysDistinct(rows, order[p], i);
    }
    forall k | k in keyed ensures exists p :: 0 <= p < |next| && KeyAt(rows, next[p]) == k {
      var p :| 0 <= p < |order| && KeyAt(rows, order[p]) == k;
      assert KeyAt(rows, next[p]) == k;
    }
  }

  lemma FiledIsComplete(rows: seq<Row>, order: seq<nat>, keyed: map<Key, Row>)
    requires forall p :: 0 <= p < |order| ==> order[p] < |rows|
    requires forall i: nat :: i in order <==> i < |rows|
    requires Files(rows, order, keyed)
    ensures keyed.Keys == Keys(rows)
    ensures forall i: nat :: i < |rows| ==> keyed[KeyAt(rows, i)] == rows[i]
  {
    forall i: nat | i < |rows| ensures KeyAt(rows, i) in keyed && keyed[KeyAt(rows, i)] == rows[i] {
      assert i in order;
      var q :| 0 <= q < |order| && order[q] == i;
    }
  }

  /** Sorting and counting gives every row the key that its position in its group
      determines, and no other key. */
  method Enumerated(rows: seq<Row>) returns (keyed: map<Key, Row>)
    ensures keyed.Keys == Keys(rows)
    ensures forall i: nat :: i < |rows| ==> keyed[KeyAt(rows, i)] == rows[i]
  {
    var order := Order(rows, |rows|);
    OrderSorted(rows, |rows|);
    var counts: map<Group, nat> := map[];
    keyed := map[];
    ghost var done: seq<nat> := [];
    for p := 0 to |order|
      invariant done == order[..p]
      invariant CountsMatch(rows, done, counts)
      invariant Files(rows, done, keyed)
    {
      var row := rows[order[p]];
      PassedAreEarlier(rows, order, p);
      CountedNext(rows, done, order[p], counts);
      FilesNext(rows, done, keyed, order[p]);
      counts := counts[row.group := Get(counts, row.group) + 1];
      keyed := keyed[Key(row.group, counts[row.group]) := row];
      done := done + [order[p]];
    }
    assert done == order;
    FiledIsComplete(rows, order, keyed);
  }

  lemma CountedNext(rows: seq<Row>, order: seq<nat>, i: nat, counts: map<Group, nat>)
    requires i < |rows| && i !in order && forall q :: 0 <= q < |order| ==> order[q] < |rows|
    requires CountsMatch(rows, order, counts)
    ensures var group := rows[i].group;
            CountsMatch(rows, order + [i], counts[group := Get(counts, group) + 1])
  {
    var group := rows[i].group;
    var next := counts[group := Get(counts, group) + 1];
    forall g ensures Get(next, g) == |Counted(rows, order + [i], g)| {
      var was := Counted(rows, order, g);
      if g == group {
        assert Counted(rows, order + [i], g) == was + {i};
      } else {
        assert Counted(rows, order + [i], g) == was;
      }
    }
  }

  // ---- what the keys mean ----

  lemma SmallerSet(a: set<nat>, b: set<nat>, x: nat)
    requires a <= b && x in b && x !in a
    ensures |a| < |b|
  {
    CardinalityMonotone(a, b - {x});
  }

  lemma {:induction false} CardinalityMonotone<T>(a: set<T>, b: set<T>)
    requires a <= b
    ensures |a| <= |b|
    ensures |a| == |b| ==> a == b
    decreases a
  {
    if a != {} {
      var x :| x in a;
      CardinalityMonotone(a - {x}, b - {x});
    }
  }

  /** Occurrences number a group by line, then by column, then in input order. */
  lemma OccurrenceFollowsPosition(rows: seq<Row>, i: nat, j: nat)
    requires i < |rows| && j < |rows| && rows[i].group == rows[j].group
    ensures KeyAt(rows, i).occurrence < KeyAt(rows, j).occurrence <==>
            || rows[i].line < rows[j].line
            || (rows[i].line == rows[j].line && rows[i].column < rows[j].column)
            || (rows[i].line == rows[j].line && rows[i].column == rows[j].column && i < j)
  {
    if Before(rows, i, j) {
      SmallerSet(Earlier(rows, i), Earlier(rows, j), i);
    } else if i != j {
      SmallerSet(Earlier(rows, j), Earlier(rows, i), j);
    }
  }

  /** No two rows share a key. */
  lemma KeysDistinct(rows: seq<Row>, i: nat, j: nat)
    requires i < |rows| && j < |rows| && i != j
    ensures KeyAt(rows, i) != KeyAt(rows, j)
  {
    if rows[i].group == rows[j].group {
      OccurrenceFollowsPosition(rows, i, j);
      OccurrenceFollowsPosition(rows, j, i);
    }
  }

  /** One enumeration carried over to another, row by row, with the group kept and
      the order inside each group kept. */
  ghost predicate Moves(a: seq<Row>, b: seq<Row>, to: seq<nat>, back: seq<nat>) {
    && |a| == |b| == |to| == |back|
    && (forall i :: 0 <= i < |a| ==> to[i] < |b| && back[to[i]] == i)
    && (forall j :: 0 <= j < |b| ==> back[j] < |a| && to[back[j]] == j)
    && (forall i :: 0 <= i < |a| ==> b[to[i]].group == a[i].group)
    && (forall i: nat, j: nat :: i < |a| && j < |a| && a[i].group == a[j].group ==>
          (Before(b, to[i], to[j]) <==> Before(a, i, j)))
  }

  lemma {:induction false} ImageSize<A, B>(s: set<A>, f: A -> B, image: set<B>)
    requires forall x, y :: x in s && y in s && x != y ==> f(x) != f(y)
    requires image == set x | x in s :: f(x)
    ensures |image| == |s|
    decreases s
  {
    if s != {} {
      var x :| x in s;
      var rest := set y | y in s - {x} :: f(y);
      ImageSize(s - {x}, f, rest);
      assert image == rest + {f(x)};
    }
  }

  lemma EarlierMoves(a: seq<Row>, b: seq<Row>, to: seq<nat>, back: seq<nat>, i: nat, j: nat)
    requires Moves(a, b, to, back) && i < |a| && j < |a|
    ensures j in Earlier(a, i) <==> to[j] in Earlier(b, to[i])
  {
    assert b[to[j]].group == a[j].group && b[to[i]].group == a[i].group;
  }

  /** Keys do not move with the code. */
  lemma KeysDoNotMove(a: seq<Row>, b: seq<Row>, to: seq<nat>, back: seq<nat>, i: nat)
    requires Moves(a, b, to, back) && i < |a|
    ensures KeyAt(b, to[i]) == KeyAt(a, i)
  {
    var here := Earlier(a, i);
    var there := i => if 0 <= i < |to| then to[i] else 0;
    var image := set j | j in here :: there(j);
    ImageSize(here, there, image);
    forall j | j in image ensures j in Earlier(b, to[i]) {
      var k :| k in here && there(k) == j;
      EarlierMoves(a, b, to, back, i, k);
    }
    forall j | j in Earlier(b, to[i]) ensures j in image {
      EarlierMoves(a, b, to, back, i, back[j]);
      assert there(back[j]) == j;
    }
    assert image == Earlier(b, to[i]);
  }

  /** In particular a file may gain or lose lines anywhere, and rows may be listed
      in any way that keeps equal positions in order. */
  lemma KeysSurviveMove(a: seq<Row>, b: seq<Row>, to: seq<nat>, back: seq<nat>)
    requires Moves(a, b, to, back)
    ensures Keys(a) == Keys(b)
  {
    forall k | k in Keys(a) ensures k in Keys(b) {
      var i: nat :| i < |a| && KeyAt(a, i) == k;
      KeysDoNotMove(a, b, to, back, i);
    }
    forall k | k in Keys(b) ensures k in Keys(a) {
      var j: nat :| j < |b| && KeyAt(b, j) == k;
      KeysDoNotMove(a, b, to, back, back[j]);
    }
  }
}
