/** The census of an enumeration: how many mutants each group held. It stands in
    for the list of keys, and answers membership exactly. */
module MutantCensus {
  import opened Common
  import opened MutantKeys

  type Counts = map<string, nat>
  type Census = map<string, map<string, map<string, Counts>>>

  function At<T>(m: map<string, T>, key: string, missing: T): T {
    if key in m then m[key] else missing
  }

  /** The count of one group, zero where any level is missing. */
  function Seen(census: Census, g: Group): nat {
    At(At(At(At(census, g.file, map[]), g.func, map[]), g.genre, map[]), g.replacement, 0)
  }

  /** One more mutant of a group, with every missing level made on the way. */
  function Bump(census: Census, g: Group): Census {
    var byFunc := At(census, g.file, map[]);
    var byGenre := At(byFunc, g.func, map[]);
    var byReplacement := At(byGenre, g.genre, map[]);
    census[g.file := byFunc[g.func := byGenre[g.genre :=
      byReplacement[g.replacement := At(byReplacement, g.replacement, 0) + 1]]]]
  }

  /** Whether the census holds a place for a key. */
  predicate Covers(census: Census, k: Key) {
    k.occurrence <= Seen(census, k.group)
  }

  function InGroup(keys: set<Key>, g: Group): set<Key> {
    set k | k in keys && k.group == g
  }

  /** The census of a set of keys, as a census may be spelled: only counts matter. */
  ghost predicate IsCensusOf(census: Census, keys: set<Key>) {
    forall g :: Seen(census, g) == |InGroup(keys, g)|
  }

  /** The count of a group stands at file, function, genre and replacement, and groups
      that were not enumerated have none. */
  lemma CensusPlace(census: Census, g: Group, n: nat)
    requires Seen(census, g) == n
    ensures n > 0 ==>
            && g.file in census && g.func in census[g.file] && g.genre in census[g.file][g.func]
            && g.replacement in census[g.file][g.func][g.genre]
            && census[g.file][g.func][g.genre][g.replacement] == n
    ensures n == 0 && g.file in census && g.func in census[g.file] && g.genre in census[g.file][g.func]
            && g.replacement in census[g.file][g.func][g.genre] ==>
              census[g.file][g.func][g.genre][g.replacement] == 0
  {
  }

  method CensusOf(run: map<Key, Row>) returns (census: Census)
    ensures IsCensusOf(census, run.Keys)
  {
    census := map[];
    var todo := run.Keys;
    ghost var done: set<Key> := {};
    while todo != {}
      invariant done + todo == run.Keys && done !! todo
      invariant IsCensusOf(census, done)
      decreases todo
    {
      ghost var some := SomeMember(todo);
      var k :| k in todo;
      CensusNext(census, done, k);
      census := Bump(census, k.group);
      done := done + {k};
      todo := todo - {k};
    }
  }

  lemma SeenBump(census: Census, g: Group, h: Group)
    ensures Seen(Bump(census, g), h) == Seen(census, h) + if g == h then 1 else 0
  {
    if g.file == h.file && g.func == h.func && g.genre == h.genre && g.replacement == h.replacement {
      assert g == h;
    }
  }

  lemma CensusNext(census: Census, done: set<Key>, k: Key)
    requires IsCensusOf(census, done) && k !in done
    ensures IsCensusOf(Bump(census, k.group), done + {k})
  {
    forall g ensures Seen(Bump(census, k.group), g) == |InGroup(done + {k}, g)| {
      SeenBump(census, k.group, g);
      InGroupNext(done, k, g);
    }
  }

  lemma InGroupNext(done: set<Key>, k: Key, g: Group)
    requires k !in done
    ensures |InGroup(done + {k}, g)| == |InGroup(done, g)| + if k.group == g then 1 else 0
  {
    if k.group == g {
      assert InGroup(done + {k}, g) == InGroup(done, g) + {k};
    } else {
      assert InGroup(done + {k}, g) == InGroup(done, g);
    }
  }

  // ---- occurrences are exactly 1..n ----

  function UpTo(n: nat): (r: set<int>)
    ensures |r| == n
    ensures forall o :: o in r <==> 1 <= o <= n
  {
    if n == 0 then {} else UpTo(n - 1) + {n}
  }

  function OccurrenceAt(rows: seq<Row>, i: int): int {
    if 0 <= i < |rows| then KeyAt(rows, i).occurrence else 0
  }

  function Used(rows: seq<Row>, members: set<nat>): set<int> {
    set i | i in members :: OccurrenceAt(rows, i)
  }

  lemma OccurrenceInRange(rows: seq<Row>, g: Group, i: nat)
    requires i in Members(rows, g)
    ensures 1 <= OccurrenceAt(rows, i) <= |Members(rows, g)|
  {
    SmallerSet(Earlier(rows, i), Members(rows, g), i);
  }

  lemma EveryOccurrenceIsUsed(rows: seq<Row>, g: Group)
    ensures Used(rows, Members(rows, g)) == UpTo(|Members(rows, g)|)
  {
    var members := Members(rows, g);
    forall i, j | i in members && j in members && i != j ensures OccurrenceAt(rows, i) != OccurrenceAt(rows, j) {
      KeysDistinct(rows, i, j);
    }
    ImageSize(members, i => OccurrenceAt(rows, i), Used(rows, members));
    forall i | i in members ensures OccurrenceAt(rows, i) in UpTo(|members|) {
      OccurrenceInRange(rows, g, i);
    }
    CardinalityMonotone(Used(rows, members), UpTo(|members|));
  }

  /** A group of n mutants uses exactly the occurrences 1..n. */
  lemma OccurrencesAreExact(rows: seq<Row>, g: Group, o: int)
    ensures Key(g, o) in Keys(rows) <==> 1 <= o <= |Members(rows, g)|
  {
    EveryOccurrenceIsUsed(rows, g);
    if o in Used(rows, Members(rows, g)) {
      var i :| i in Members(rows, g) && OccurrenceAt(rows, i) == o;
      assert KeyAt(rows, i) == Key(g, o);
    }
    if Key(g, o) in Keys(rows) {
      var i: nat :| i < |rows| && KeyAt(rows, i) == Key(g, o);
      assert i in Members(rows, g) && OccurrenceAt(rows, i) == o;
    }
  }

  lemma GroupHoldsItsMembers(rows: seq<Row>, g: Group)
    ensures |InGroup(Keys(rows), g)| == |Members(rows, g)|
  {
    var n := |Members(rows, g)|;
    var key := o => Key(g, o);
    var keys := set o | o in UpTo(n) :: key(o);
    ImageSize(UpTo(n), key, keys);
    forall k: Key | k.group == g ensures k in Keys(rows) <==> k in keys {
      OccurrencesAreExact(rows, g, k.occurrence);
      assert k == Key(g, k.occurrence) == key(k.occurrence);
    }
    assert InGroup(Keys(rows), g) == keys;
  }

  // ---- the census answers membership ----

  /** Exactly the enumerated keys are covered, and beside them only the keys whose
      occurrence is not positive, which no enumeration produces. */
  lemma CoversIsMembership(rows: seq<Row>, census: Census, k: Key)
    requires IsCensusOf(census, Keys(rows))
    ensures Covers(census, k) <==> k in Keys(rows) || k.occurrence <= 0
  {
    GroupHoldsItsMembers(rows, k.group);
    OccurrencesAreExact(rows, k.group, k.occurrence);
  }

  /** Counting forgets nothing: two enumerations with one census have the same keys. */
  lemma CensusDeterminesKeys(a: seq<Row>, b: seq<Row>, census: Census)
    requires IsCensusOf(census, Keys(a)) && IsCensusOf(census, Keys(b))
    ensures Keys(a) == Keys(b)
  {
    forall k ensures k in Keys(a) <==> k in Keys(b) {
      CoversIsMembership(a, census, k);
      CoversIsMembership(b, census, k);
      OccurrencesAreExact(a, k.group, k.occurrence);
      OccurrencesAreExact(b, k.group, k.occurrence);
    }
  }

  /** The keys of a later enumeration that the census has no place for. */
  function Uncovered(rows: seq<Row>, census: Census, g: Group): set<Key> {
    set k | k in Keys(rows) && k.group == g && !Covers(census, k)
  }

  /** A group that grew from m to n mutants exposes n - m of them, the last ones in
      position order; one that did not grow exposes none. */
  lemma GrowthIsExposed(earlier: seq<Row>, now: seq<Row>, census: Census, g: Group)
    requires IsCensusOf(census, Keys(earlier))
    ensures var m, n := |Members(earlier, g)|, |Members(now, g)|;
            |Uncovered(now, census, g)| == if n > m then n - m else 0
    ensures forall i: nat :: i < |now| && now[i].group == g ==>
              (KeyAt(now, i) in Uncovered(now, census, g) <==> KeyAt(now, i).occurrence > |Members(earlier, g)|)
  {
    var m, n := |Members(earlier, g)|, |Members(now, g)|;
    GroupHoldsItsMembers(earlier, g);
    var key := o => Key(g, o + m);
    var grown := if n > m then n - m else 0;
    var keys := set o | o in UpTo(grown) :: key(o);
    ImageSize(UpTo(grown), key, keys);
    forall k: Key | k.group == g ensures k in keys <==> k in Uncovered(now, census, g) {
      OccurrencesAreExact(now, g, k.occurrence);
      assert k == key(k.occurrence - m);
    }
    assert keys == Uncovered(now, census, g);
  }
}
