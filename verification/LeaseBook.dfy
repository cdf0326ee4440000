/** The lease book: one row per conversation that rests in a pool cell, and the
    ids reserved by a first turn. Each operation below is one critical section
    under the book's lock, first as a function of the book, then as the method
    that updates the fields in place. */
module LeaseBook {
  import opened LeasePool

  datatype Lease = Lease(fingerprint: Fingerprint, lastResult: string, inFlight: bool, cell: string)

  datatype Book = Book(live: map<ConversationId, Lease>, reserved: set<ConversationId>)

  function Occupied(book: Book): nat {
    |book.live| + |book.reserved|
  }

  /** No id is both live and reserved, and the cap holds. */
  predicate BookOk(book: Book, maxLeases: nat) {
    && book.live.Keys !! book.reserved
    && Occupied(book) <= maxLeases
  }

  function Orphans(live: map<ConversationId, Lease>, poolIds: set<ConversationId>): set<ConversationId> {
    set id | id in live && !live[id].inFlight && id !in poolIds
  }

  function DropOrphans(book: Book, poolIds: set<ConversationId>): Book {
    book.(live := book.live - Orphans(book.live, poolIds))
  }

  /** What one request was told to do when it left the lock. */
  datatype Verdict =
    | Replayed(cell: string, result: string)
    | GoContinue(from: nat)
    | GoReprime
    | GoPrime
    | Busy
    | CapReached

  function SetInFlight(book: Book, id: ConversationId, flag: bool): Book
    requires id in book.live
  {
    book.(live := book.live[id := book.live[id].(inFlight := flag)])
  }

  function Reserve(book: Book, maxLeases: nat, id: ConversationId): (Book, Verdict) {
    if id in book.reserved then (book, Busy)
    else if Occupied(book) >= maxLeases then (book, CapReached)
    else (book.(reserved := book.reserved + {id}), GoPrime)
  }

  /** The decision on one row. `leased` is the pool's answer to
      `touch_conversation`, consulted only for a replay. */
  function PlanRow(book: Book, maxLeases: nat, id: ConversationId, next: Fingerprint, leased: bool): (Book, Verdict) {
    if id !in book.live then Reserve(book, maxLeases, id)
    else
      var lease := book.live[id];
      if lease.inFlight then (book, Busy)
      else
        match ClassifyPrefix(lease.fingerprint, next)
        case Replay =>
          if leased then (book, Replayed(lease.cell, lease.lastResult))
          else Reserve(book.(live := book.live - {id}), maxLeases, id)
        case Continue(from) => (SetInFlight(book, id, true), GoContinue(from))
        case Reprime => (SetInFlight(book, id, true), GoReprime)
  }

  /** The planning critical section of `complete`. */
  function PlanBook(book: Book, maxLeases: nat, id: ConversationId, next: Fingerprint,
                    poolIds: set<ConversationId>, leased: bool): (Book, Verdict)
  {
    PlanRow(DropOrphans(book, poolIds), maxLeases, id, next, leased)
  }

  function CommitBook(book: Book, id: ConversationId, next: Fingerprint, result: string, cell: string): Book {
    Book(book.live[id := Lease(next, result, false, cell)], book.reserved - {id})
  }

  function RecoverBook(book: Book, id: ConversationId, keep: bool): Book {
    if keep then (if id in book.live then SetInFlight(book, id, false) else book)
    else Book(book.live - {id}, book.reserved - {id})
  }

  predicate ReleaseRefused(book: Book, id: ConversationId) {
    id in book.reserved || (id in book.live && book.live[id].inFlight)
  }

  function ReleaseBook(book: Book, id: ConversationId): Book {
    if ReleaseRefused(book, id) then book else book.(live := book.live - {id})
  }

  // ---- the cap and the disjointness survive every critical section ----

  lemma RemovalShrinks<K, V>(m: map<K, V>, keys: set<K>)
    ensures |m - keys| <= |m|
    ensures (exists k :: k in keys && k in m) ==> |m - keys| < |m|
  {
    var rest := m - keys;
    assert rest.Keys <= m.Keys;
    if k :| k in keys && k in m {
      SubsetSmaller(rest.Keys, m.Keys - {k});
    } else {
      assert rest.Keys == m.Keys;
    }
    SubsetSmaller(rest.Keys, m.Keys);
  }

  lemma SubsetSmaller<K>(a: set<K>, b: set<K>)
    requires a <= b
    ensures |a| <= |b|
  {
    assert b == a + (b - a);
  }

  lemma UpdateKeepsSize<K, V>(m: map<K, V>, k: K, v: V)
    ensures k in m ==> |m[k := v]| == |m|
    ensures k !in m ==> |m[k := v]| == |m| + 1
  {
    assert m[k := v].Keys == m.Keys + {k};
  }

  lemma DropOrphansOk(book: Book, maxLeases: nat, poolIds: set<ConversationId>)
    requires BookOk(book, maxLeases)
    ensures BookOk(DropOrphans(book, poolIds), maxLeases)
  {
    RemovalShrinks(book.live, Orphans(book.live, poolIds));
  }

  lemma PlanRowOk(book: Book, maxLeases: nat, id: ConversationId, next: Fingerprint, leased: bool)
    requires BookOk(book, maxLeases)
    ensures BookOk(PlanRow(book, maxLeases, id, next, leased).0, maxLeases)
  {
    if id in book.live {
      UpdateKeepsSize(book.live, id, book.live[id].(inFlight := true));
      RemovalShrinks(book.live, {id});
    }
  }

  lemma PlanBookOk(book: Book, maxLeases: nat, id: ConversationId, next: Fingerprint,
                   poolIds: set<ConversationId>, leased: bool)
    requires BookOk(book, maxLeases)
    ensures BookOk(PlanBook(book, maxLeases, id, next, poolIds, leased).0, maxLeases)
  {
    DropOrphansOk(book, maxLeases, poolIds);
    PlanRowOk(DropOrphans(book, poolIds), maxLeases, id, next, leased);
  }

  /** A replay whose cell has vanished frees its own row first, so it always
      becomes a prime: neither the cap nor a reservation can refuse it. */
  lemma VanishedReplayPrimes(book: Book, maxLeases: nat, id: ConversationId, next: Fingerprint,
                             poolIds: set<ConversationId>)
    requires BookOk(book, maxLeases)
    requires id in book.live && !book.live[id].inFlight && book.live[id].fingerprint == next
    ensures PlanBook(book, maxLeases, id, next, poolIds, false).1 == GoPrime
    ensures id in PlanBook(book, maxLeases, id, next, poolIds, false).0.reserved
  {
    var kept := DropOrphans(book, poolIds);
    DropOrphansOk(book, maxLeases, poolIds);
    RemovalShrinks(kept.live, {id});
    RemovalShrinks(book.live, Orphans(book.live, poolIds));
    if id !in kept.live {
      assert id in Orphans(book.live, poolIds) && id in book.live;
    }
  }

  /** The request is the previous one with messages added at the end. */
  ghost predicate Extends(next: Fingerprint, previous: Fingerprint) {
    exists tail: seq<Message> :: tail != [] && next == previous.(messages := previous.messages + tail)
  }

  lemma ContinueIffExtends(previous: Fingerprint, next: Fingerprint)
    ensures ClassifyPrefix(previous, next).Continue? <==> Extends(next, previous)
  {
    if Extends(next, previous) {
      var tail: seq<Message> :| tail != [] && next == previous.(messages := previous.messages + tail);
      ContinueIsStrictExtension(previous, next, tail);
    }
    if ClassifyPrefix(previous, next).Continue? {
      var tail := next.messages[|previous.messages|..];
      assert next == previous.(messages := previous.messages + tail);
    }
  }

  /** When a request is told what: busy exactly while a turn is under way, refused by
      the cap exactly when it has no usable row and no room is left, and otherwise
      by how it compares with its row. */
  lemma VerdictMeans(book: Book, maxLeases: nat, id: ConversationId, next: Fingerprint,
                     poolIds: set<ConversationId>, leased: bool)
    requires BookOk(book, maxLeases)
    ensures var verdict := PlanBook(book, maxLeases, id, next, poolIds, leased).1;
            var usable := id in book.live && !book.live[id].inFlight && id in poolIds;
            && (verdict.Busy? <==> ReleaseRefused(book, id))
            && (verdict.CapReached? <==>
                  !ReleaseRefused(book, id) && !usable && Occupied(DropOrphans(book, poolIds)) >= maxLeases)
            && (verdict.Replayed? <==> usable && leased && book.live[id].fingerprint == next)
            && (verdict.GoContinue? <==> usable && Extends(next, book.live[id].fingerprint))
            && (verdict.GoReprime? <==>
                  usable && book.live[id].fingerprint != next && !Extends(next, book.live[id].fingerprint))
  {
    var kept := DropOrphans(book, poolIds);
    DropOrphansOk(book, maxLeases, poolIds);
    RemovalShrinks(kept.live, {id});
    if id in kept.live {
      ContinueIffExtends(kept.live[id].fingerprint, next);
    }
  }

  /** What planning writes: the reservation of a prime or the mark of a later turn, on
      this conversation alone, beside the orphans it drops. */
  lemma PlanChanges(book: Book, maxLeases: nat, id: ConversationId, next: Fingerprint,
                    poolIds: set<ConversationId>, leased: bool)
    ensures var (after, verdict) := PlanBook(book, maxLeases, id, next, poolIds, leased);
            && after.reserved == (if verdict.GoPrime? then book.reserved + {id} else book.reserved)
            && (forall x :: x in after.live && x != id ==> x in book.live && after.live[x] == book.live[x])
            && (forall x :: x in book.live && x != id ==>
                  (x in after.live <==> book.live[x].inFlight || x in poolIds))
            && (verdict.GoContinue? || verdict.GoReprime? ==>
                  id in book.live && id in after.live && after.live[id] == book.live[id].(inFlight := true))
            && (verdict.Replayed? ==>
                  && id in book.live && id in after.live && after.live[id] == book.live[id]
                  && verdict == Replayed(book.live[id].cell, book.live[id].lastResult))
  {
    var kept := DropOrphans(book, poolIds);
    PlanRowOwn(kept, maxLeases, id, next, leased);
    forall x | x != id
      ensures var after := PlanBook(book, maxLeases, id, next, poolIds, leased).0;
              (x in after.live <==> x in kept.live) && (x in kept.live ==> after.live[x] == kept.live[x])
    {
      PlanRowOthers(kept, maxLeases, id, next, leased, x);
    }
  }

  lemma PlanRowOthers(book: Book, maxLeases: nat, id: ConversationId, next: Fingerprint, leased: bool,
                      x: ConversationId)
    requires x != id
    ensures var after := PlanRow(book, maxLeases, id, next, leased).0;
            (x in after.live <==> x in book.live) && (x in book.live ==> after.live[x] == book.live[x])
  {
    if id in book.live {
      ReserveChanges(book.(live := book.live - {id}), maxLeases, id);
    }
  }

  lemma PlanRowOwn(book: Book, maxLeases: nat, id: ConversationId, next: Fingerprint, leased: bool)
    ensures var (after, verdict) := PlanRow(book, maxLeases, id, next, leased);
            && after.reserved == (if verdict.GoPrime? then book.reserved + {id} else book.reserved)
            && (verdict.GoContinue? || verdict.GoReprime? ==>
                  id in book.live && id in after.live && after.live[id] == book.live[id].(inFlight := true))
            && (verdict.Replayed? ==>
                  id in book.live && after == book && verdict == Replayed(book.live[id].cell, book.live[id].lastResult))
  {
    ReserveChanges(book, maxLeases, id);
    ReserveChanges(book.(live := book.live - {id}), maxLeases, id);
  }

  lemma ReserveChanges(book: Book, maxLeases: nat, id: ConversationId)
    ensures var (after, verdict) := Reserve(book, maxLeases, id);
            && after.live == book.live
            && after.reserved == (if verdict.GoPrime? then book.reserved + {id} else book.reserved)
            && (verdict.GoPrime? || verdict.Busy? || verdict.CapReached?)
  {
  }

  lemma CommitBookOk(book: Book, maxLeases: nat, id: ConversationId, next: Fingerprint, result: string, cell: string)
    requires BookOk(book, maxLeases)
    requires id in book.reserved || id in book.live
    ensures BookOk(CommitBook(book, id, next, result, cell), maxLeases)
  {
    UpdateKeepsSize(book.live, id, Lease(next, result, false, cell));
    if id in book.reserved {
      assert book.reserved == (book.reserved - {id}) + {id};
    } else {
      assert book.reserved - {id} == book.reserved;
    }
  }

  lemma RecoverBookOk(book: Book, maxLeases: nat, id: ConversationId, keep: bool)
    requires BookOk(book, maxLeases)
    ensures BookOk(RecoverBook(book, id, keep), maxLeases)
  {
    RemovalShrinks(book.live, {id});
    SubsetSmaller(book.reserved - {id}, book.reserved);
    if id in book.live {
      UpdateKeepsSize(book.live, id, book.live[id].(inFlight := false));
    }
  }

  lemma ReleaseBookOk(book: Book, maxLeases: nat, id: ConversationId)
    requires BookOk(book, maxLeases)
    ensures BookOk(ReleaseBook(book, id), maxLeases)
  {
    RemovalShrinks(book.live, {id});
  }

  /** The guarded state of the running daemon. */
  class ConversationBook {
    var live: map<ConversationId, Lease>
    var reserved: set<ConversationId>
    const maxLeases: nat

    function View(): Book
      reads this
    {
      Book(live, reserved)
    }

    ghost predicate Valid()
      reads this
    {
      BookOk(View(), maxLeases)
    }

    constructor (maxLeases: nat)
      ensures Valid() && View() == Book(map[], {}) && this.maxLeases == maxLeases
    {
      this.maxLeases := maxLeases;
      live, reserved := map[], {};
    }

    method RemoveOrphans(poolIds: set<ConversationId>)
      requires Valid()
      modifies this
      ensures Valid() && View() == DropOrphans(old(View()), poolIds)
      ensures live == map x | x in old(live) && (old(live)[x].inFlight || x in poolIds) :: old(live)[x]
      ensures reserved == old(reserved)
    {
      var orphans := set id | id in live && !live[id].inFlight && id !in poolIds;
      var left := orphans;
      DropOrphansOk(View(), maxLeases, poolIds);
      while left != {}
        invariant left <= orphans
        invariant live == old(live) - (orphans - left)
        invariant reserved == old(reserved)
        decreases left
      {
        var id :| id in left;
        assert orphans - (left - {id}) == (orphans - left) + {id};
        live, left := live - {id}, left - {id};
      }
      assert orphans - left == orphans;
    }

    method Plan(id: ConversationId, next: Fingerprint, poolIds: set<ConversationId>, leased: bool)
      returns (verdict: Verdict)
      requires Valid()
      modifies this
      ensures Valid()
      ensures (View(), verdict) == PlanBook(old(View()), maxLeases, id, next, poolIds, leased)
    {
      PlanBookOk(View(), maxLeases, id, next, poolIds, leased);
      RemoveOrphans(poolIds);
      if id in live {
        var lease := live[id];
        if lease.inFlight {
          return Busy;
        }
        match ClassifyPrefix(lease.fingerprint, next) {
          case Replay =>
            if leased {
              return Replayed(lease.cell, lease.lastResult);
            }
            live := live - {id};
          case Continue(from) =>
            live := live[id := lease.(inFlight := true)];
            return GoContinue(from);
          case Reprime =>
            live := live[id := lease.(inFlight := true)];
            return GoReprime;
        }
      }
      if id in reserved {
        return Busy;
      }
      if |live| + |reserved| >= maxLeases {
        return CapReached;
      }
      reserved := reserved + {id};
      return GoPrime;
    }

    method Commit(id: ConversationId, next: Fingerprint, result: string, cell: string)
      requires Valid()
      requires id in reserved || id in live
      modifies this
      ensures Valid() && View() == CommitBook(old(View()), id, next, result, cell)
      ensures live == old(live)[id := Lease(next, result, false, cell)] && reserved == old(reserved) - {id}
    {
      CommitBookOk(View(), maxLeases, id, next, result, cell);
      reserved := reserved - {id};
      live := live[id := Lease(next, result, false, cell)];
    }

    method RecoverFailedTurn(id: ConversationId, keep: bool)
      requires Valid()
      modifies this
      ensures Valid() && View() == RecoverBook(old(View()), id, keep)
      ensures keep ==> live.Keys == old(live).Keys && reserved == old(reserved)
      ensures keep && id in live ==> live[id] == old(live)[id].(inFlight := false)
      ensures !keep ==> live.Keys == old(live).Keys - {id} && reserved == old(reserved) - {id}
      ensures forall x :: x in live && x != id ==> live[x] == old(live)[x]
    {
      RecoverBookOk(View(), maxLeases, id, keep);
      if keep {
        if id in live {
          live := live[id := live[id].(inFlight := false)];
        }
        return;
      }
      reserved := reserved - {id};
      live := live - {id};
    }

    method Release(id: ConversationId) returns (refused: bool)
      requires Valid()
      modifies this
      ensures Valid() && View() == ReleaseBook(old(View()), id)
      ensures refused <==> id in old(reserved) || (id in old(live) && old(live)[id].inFlight)
      ensures refused ==> live == old(live) && reserved == old(reserved)
      ensures !refused ==> live.Keys == old(live).Keys - {id} && reserved == old(reserved)
      ensures forall x :: x in live ==> live[x] == old(live)[x]
    {
      ReleaseBookOk(View(), maxLeases, id);
      if id in reserved || (id in live && live[id].inFlight) {
        return true;
      }
      live := live - {id};
      return false;
    }
  }
}
