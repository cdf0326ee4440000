/** What every step of the lease protocol keeps, conversation by conversation. */
module LeaseInvariant {
  import opened Common
  import opened LeasePool
  import opened LeaseBook
  import opened LeaseProtocol

  /** A resting cell that holds exactly what a fingerprint says was sent. */
  ghost predicate Holds(cell: Cell, fingerprint: Fingerprint, token: string) {
    && cell.Leased?
    && cell.cls == fingerprint.cls
    && cell.token == token
    && Heard(cell.transcript) == Some((fingerprint.systemTools, fingerprint.messages))
  }

  ghost predicate Owner(s: State, t: TaskId, id: ConversationId) {
    Owning(s, t) && s.tasks[t].id == id
  }

  ghost predicate SoleOwner(s: State, t: TaskId, id: ConversationId) {
    Owner(s, t, id) && forall u :: Owner(s, u, id) ==> u == t
  }

  ghost predicate NoOwner(s: State, id: ConversationId) {
    forall u :: !Owner(s, u, id)
  }

  /** The book says a turn is under way. */
  ghost predicate Claimed(book: Book, id: ConversationId) {
    id in book.reserved || (id in book.live && book.live[id].inFlight)
  }

  /** The book agrees with a turn's plan; a continuation still has its row. */
  ghost predicate PlanKept(book: Book, turn: Task)
    requires turn.Turn?
  {
    match turn.plan
    case Prime => turn.id in book.reserved
    case Repriming => turn.id in book.live && book.live[turn.id].inFlight
    case Continuation(from, held, _) =>
      && turn.id in book.live
      && book.live[turn.id] == held.(inFlight := true)
      && !held.inFlight
      && ClassifyPrefix(held.fingerprint, turn.next) == Continue(from)
  }

  /** The cell as a turn that has typed nothing may find it. */
  ghost predicate Untouched(cell: Cell, plan: Plan) {
    && cell.Leased?
    && (plan.Continuation? ==>
          plan.seen == Some(cell) && Holds(cell, plan.held.fingerprint, plan.held.cell))
  }

  ghost predicate InUse(cell: Cell, t: TaskId, turn: Task, resumed: bool)
    requires turn.Turn?
  {
    && cell.CheckedOut?
    && cell.task == t
    && cell.cls == turn.next.cls
    && if resumed then
         && turn.plan.Continuation?
         && turn.plan.from <= |turn.next.messages|
         && Holds(Leased(cell.cls, cell.transcript, cell.token), turn.plan.held.fingerprint, turn.plan.held.cell)
         && cell.prompt == Suffix(turn.next.messages[turn.plan.from..])
       else
         && cell.transcript == []
         && cell.prompt == Primer(turn.next.systemTools, turn.next.messages)
  }

  ghost predicate CellFits(pool: Pool, t: TaskId, turn: Task)
    requires turn.Turn?
  {
    match turn.pc
    case Claiming => turn.id !in pool && !turn.plan.Prime?
    case Admitting => turn.id in pool && pool[turn.id] == Pending(t)
    case Running(resumed) => turn.id in pool && InUse(pool[turn.id], t, turn, resumed)
    case Answered(_, _, token) => turn.id in pool ==> Holds(pool[turn.id], turn.next, token)
    case Judged(code, keep) =>
      && (keep ==> turn.plan.Continuation? && code == InvalidConfig)
      && (turn.id in pool ==> Untouched(pool[turn.id], turn.plan))
    case _ => turn.id in pool ==> Untouched(pool[turn.id], turn.plan)
  }

  ghost predicate TurnOk(s: State, t: TaskId) {
    Owning(s, t) && PlanKept(s.book, s.tasks[t]) && CellFits(s.pool, t, s.tasks[t])
  }

  /** Between turns the cell rests, and an idle row says what it holds. */
  ghost predicate RestOk(s: State, id: ConversationId) {
    id in s.pool ==>
      && s.pool[id].Leased?
      && (id in s.book.live ==> Holds(s.pool[id], s.book.live[id].fingerprint, s.book.live[id].cell))
  }

  ghost predicate IdOk(s: State, id: ConversationId) {
    if Claimed(s.book, id) then exists t :: SoleOwner(s, t, id) && TurnOk(s, t)
    else NoOwner(s, id) && RestOk(s, id)
  }

  /** The last turn committed for an id: what was asked and what was answered. */
  ghost function LastCommit(log: seq<Event>, id: ConversationId): Option<(Fingerprint, string)> {
    if log == [] then None
    else
      var last := log[|log| - 1];
      if last.Committed? && last.id == id then Some((last.fingerprint, last.result))
      else LastCommit(log[..|log| - 1], id)
  }

  ghost predicate RowsAreLastCommits(s: State) {
    forall id :: id in s.book.live ==>
      LastCommit(s.log, id) == Some((s.book.live[id].fingerprint, s.book.live[id].lastResult))
  }

  ghost predicate ReplaysHonest(log: seq<Event>) {
    forall k :: 0 <= k < |log| && log[k].ReplayServed? ==>
      LastCommit(log[..k], log[k].id) == Some((log[k].fingerprint, log[k].result))
  }

  ghost predicate AllIdsOk(s: State) {
    forall id :: IdOk(s, id)
  }

  ghost predicate Inv(s: State, maxLeases: nat) {
    BookOk(s.book, maxLeases) && AllIdsOk(s) && RowsAreLastCommits(s) && ReplaysHonest(s.log)
  }

  lemma InitInv(maxLeases: nat)
    ensures Inv(Init(), maxLeases)
  {
    var s := Init();
    forall id ensures IdOk(s, id) {
      assert NoOwner(s, id);
    }
  }

  lemma LastCommitAppend(log: seq<Event>, e: Event, id: ConversationId)
    ensures LastCommit(log + [e], id)
            == if e.Committed? && e.id == id then Some((e.fingerprint, e.result)) else LastCommit(log, id)
  {
    assert (log + [e])[..|log|] == log;
  }

  lemma ReplaysHonestAppend(log: seq<Event>, e: Event)
    requires ReplaysHonest(log)
    requires e.ReplayServed? ==> LastCommit(log, e.id) == Some((e.fingerprint, e.result))
    ensures ReplaysHonest(log + [e])
  {
    var longer := log + [e];
    forall k | 0 <= k < |longer| && longer[k].ReplayServed?
      ensures LastCommit(longer[..k], longer[k].id) == Some((longer[k].fingerprint, longer[k].result))
    {
      if k < |log| {
        assert longer[..k] == log[..k];
      } else {
        assert longer[..k] == log;
      }
    }
  }

  /** Who owns a turn on `id`, and in what state, did not change. */
  ghost predicate SameOwners(s: State, s': State, id: ConversationId) {
    forall u :: (Owner(s', u, id) <==> Owner(s, u, id)) && (Owner(s, u, id) ==> s'.tasks[u] == s.tasks[u])
  }

  ghost predicate SameCell(s: State, s': State, id: ConversationId) {
    SeenCell(s.pool, id) == SeenCell(s'.pool, id)
  }

  /** The book row is the same, or it was idle and is gone. */
  ghost predicate RowKept(book: Book, after: Book, id: ConversationId) {
    && (id in after.reserved <==> id in book.reserved)
    && (id in after.live ==> id in book.live && after.live[id] == book.live[id])
    && (id in book.live && book.live[id].inFlight ==> id in after.live)
  }

  /** A step elsewhere leaves a conversation as it was. */
  lemma FrameId(s: State, s': State, id: ConversationId)
    requires IdOk(s, id)
    requires SameOwners(s, s', id) && SameCell(s, s', id) && RowKept(s.book, s'.book, id)
    ensures IdOk(s', id)
  {
    if Claimed(s.book, id) {
      var t :| SoleOwner(s, t, id) && TurnOk(s, t);
      assert SoleOwner(s', t, id);
      assert TurnOk(s', t);
    } else {
      assert NoOwner(s', id);
    }
  }

  /** The turn that owns an id is the one the book's mark stands for. */
  lemma OwnerTurnOk(s: State, t: TaskId)
    requires AllIdsOk(s) && Owning(s, t)
    ensures SoleOwner(s, t, s.tasks[t].id) && TurnOk(s, t) && Claimed(s.book, s.tasks[t].id)
  {
    var id := s.tasks[t].id;
    assert IdOk(s, id);
    assert Owner(s, t, id);
  }

  /** Only task `t`, and rows and cells of `id`, were touched. */
  ghost predicate StepAround(s: State, s': State, t: TaskId, id: ConversationId) {
    && (forall u :: u != t ==> (u in s'.tasks <==> u in s.tasks))
    && (forall u :: u != t && u in s.tasks && u in s'.tasks ==> s'.tasks[u] == s.tasks[u])
    && (Owning(s, t) ==> s.tasks[t].id == id)
    && (Owning(s', t) ==> s'.tasks[t].id == id)
    && (forall x :: x != id ==> SameCell(s, s', x))
    && (forall x :: x != id ==> RowKept(s.book, s'.book, x))
  }

  lemma FrameOthers(s: State, s': State, t: TaskId, id: ConversationId)
    requires AllIdsOk(s) && StepAround(s, s', t, id) && IdOk(s', id)
    ensures AllIdsOk(s')
  {
    forall x ensures IdOk(s', x) {
      if x != id {
        assert IdOk(s, x);
        assert SameOwners(s, s', x);
        FrameId(s, s', x);
      }
    }
  }

  /** Steps that only move a task which holds no turn. */
  lemma KeepByStranger(s: State, maxLeases: nat, t: TaskId, now: Task)
    requires Inv(s, maxLeases)
    requires !Owning(s, t) && !now.Turn?
    ensures Inv(At(s, t, now), maxLeases)
  {
    var s' := At(s, t, now);
    forall x ensures IdOk(s', x) {
      assert IdOk(s, x);
      assert SameOwners(s, s', x);
      FrameId(s, s', x);
    }
  }

  /** A turn that moves on while the book stays. */
  lemma KeepOwnStep(s: State, maxLeases: nat, t: TaskId, pool: Pool, pc: TurnPc)
    requires Inv(s, maxLeases)
    requires Owning(s, t)
    requires forall x :: x != s.tasks[t].id ==> SeenCell(pool, x) == SeenCell(s.pool, x)
    requires CellFits(pool, t, s.tasks[t].(pc := pc))
    ensures Inv(Goto(s.(pool := pool), t, pc), maxLeases)
  {
    var s' := Goto(s.(pool := pool), t, pc);
    var id := s.tasks[t].id;
    OwnerTurnOk(s, t);
    assert SoleOwner(s', t, id) by {
      assert forall u :: Owner(s', u, id) ==> Owner(s, u, id);
    }
    assert TurnOk(s', t);
    FrameOthers(s, s', t, id);
  }

  lemma KeepClear(s: State, maxLeases: nat, t: TaskId, refusal: Option<ErrorCode>)
    requires Inv(s, maxLeases)
    ensures Inv(TakeClear(s, t, refusal), maxLeases)
  {
    var s' := TakeClear(s, t, refusal);
    if s' != s {
      OwnerTurnOk(s, t);
      KeepOwnStep(s, maxLeases, t, s'.pool, s'.tasks[t].pc);
    }
  }

  lemma KeepResume(s: State, maxLeases: nat, t: TaskId, refusal: Option<ErrorCode>)
    requires Inv(s, maxLeases)
    ensures Inv(TakeResume(s, t, refusal), maxLeases)
  {
    var s' := TakeResume(s, t, refusal);
    if s' != s {
      OwnerTurnOk(s, t);
      KeepOwnStep(s, maxLeases, t, s'.pool, s'.tasks[t].pc);
    }
  }

  lemma KeepClaim(s: State, maxLeases: nat, t: TaskId, refusal: Option<ErrorCode>)
    requires Inv(s, maxLeases)
    ensures Inv(TakeClaim(s, t, refusal), maxLeases)
  {
    var s' := TakeClaim(s, t, refusal);
    if s' != s {
      OwnerTurnOk(s, t);
      KeepOwnStep(s, maxLeases, t, s'.pool, s'.tasks[t].pc);
    }
  }

  lemma KeepAdmit(s: State, maxLeases: nat, t: TaskId, failure: Option<ErrorCode>, token: string)
    requires Inv(s, maxLeases)
    ensures Inv(TakeAdmit(s, t, failure, token), maxLeases)
  {
    var s' := TakeAdmit(s, t, failure, token);
    if s' != s {
      OwnerTurnOk(s, t);
      KeepOwnStep(s, maxLeases, t, s'.pool, s'.tasks[t].pc);
    }
  }

  /** Answering adds exactly the planned prompt: a primer on an empty cell, or
      the missing suffix on a cell that holds the prefix. Either way the cell
      then holds the whole request. */
  lemma AnsweredHolds(book: Book, cell: Cell, t: TaskId, turn: Task, resumed: bool)
    requires turn.Turn? && PlanKept(book, turn) && InUse(cell, t, turn, resumed)
    ensures Holds(Leased(cell.cls, cell.transcript + [cell.prompt], cell.token), turn.next, cell.token)
  {
    HeardAfter(cell.transcript, cell.prompt);
  }

  lemma KeepDeliver(s: State, maxLeases: nat, t: TaskId, failure: Option<ErrorCode>, result: string)
    requires Inv(s, maxLeases)
    ensures Inv(TakeDeliver(s, t, failure, result), maxLeases)
  {
    var s' := TakeDeliver(s, t, failure, result);
    if s' != s {
      OwnerTurnOk(s, t);
      var turn := s.tasks[t];
      if failure.None? {
        AnsweredHolds(s.book, s.pool[turn.id], t, turn, turn.pc.resumed);
      }
      KeepOwnStep(s, maxLeases, t, s'.pool, s'.tasks[t].pc);
    }
  }

  lemma KeepJudge(s: State, maxLeases: nat, t: TaskId)
    requires Inv(s, maxLeases)
    ensures Inv(TakeJudge(s, t), maxLeases)
  {
    var s' := TakeJudge(s, t);
    if s' != s {
      OwnerTurnOk(s, t);
      KeepOwnStep(s, maxLeases, t, s'.pool, s'.tasks[t].pc);
    }
  }

  /** What planning tells a request about its own row. */
  ghost predicate OwnRowFacts(book: Book, id: ConversationId, next: Fingerprint, after: Book, verdict: Verdict) {
    if Claimed(book, id) then verdict == Busy && RowKept(book, after, id)
    else
      match verdict
      case Replayed(cell, result) =>
        && RowKept(book, after, id) && id in book.live
        && book.live[id].fingerprint == next && book.live[id].lastResult == result && book.live[id].cell == cell
      case GoContinue(from) =>
        && id in book.live && id in after.live && id !in after.reserved
        && after.live[id] == book.live[id].(inFlight := true)
        && ClassifyPrefix(book.live[id].fingerprint, next) == Continue(from)
      case GoReprime => id in after.live && after.live[id].inFlight && id !in after.reserved
      case GoPrime => id in after.reserved && id !in after.live
      case _ => RowKept(book, after, id)
  }

  /** A row is never rewritten: at most marked, or dropped while idle. */
  ghost predicate NotRewritten(book: Book, after: Book, x: ConversationId) {
    x in after.live ==>
      && x in book.live
      && after.live[x].fingerprint == book.live[x].fingerprint
      && after.live[x].lastResult == book.live[x].lastResult
  }

  ghost predicate PlanFacts(book: Book, id: ConversationId, next: Fingerprint, after: Book, verdict: Verdict) {
    && (forall x :: x != id ==> RowKept(book, after, x))
    && (forall x :: NotRewritten(book, after, x))
    && OwnRowFacts(book, id, next, after, verdict)
  }

  lemma PlanRowOwn(book: Book, maxLeases: nat, id: ConversationId, next: Fingerprint, leased: bool)
    requires BookOk(book, maxLeases)
    ensures var planned := PlanRow(book, maxLeases, id, next, leased);
            OwnRowFacts(book, id, next, planned.0, planned.1)
  {
    if id in book.live {
      RemovalShrinks(book.live, {id});
    }
  }

  lemma PlanRowOther(book: Book, maxLeases: nat, id: ConversationId, next: Fingerprint, leased: bool, x: ConversationId)
    ensures x != id ==> RowKept(book, PlanRow(book, maxLeases, id, next, leased).0, x)
    ensures NotRewritten(book, PlanRow(book, maxLeases, id, next, leased).0, x)
  {
  }

  lemma DropOrphansRows(book: Book, poolIds: set<ConversationId>, x: ConversationId)
    ensures RowKept(book, DropOrphans(book, poolIds), x)
  {
  }

  lemma PlanBookFacts(book: Book, maxLeases: nat, id: ConversationId, next: Fingerprint,
                      poolIds: set<ConversationId>, leased: bool)
    requires BookOk(book, maxLeases)
    ensures var planned := PlanBook(book, maxLeases, id, next, poolIds, leased);
            PlanFacts(book, id, next, planned.0, planned.1)
  {
    var kept := DropOrphans(book, poolIds);
    DropOrphansOk(book, maxLeases, poolIds);
    PlanRowOwn(kept, maxLeases, id, next, leased);
    var planned := PlanRow(kept, maxLeases, id, next, leased);
    DropThenPlan(book, kept, id, next, planned.0, planned.1) by {
      forall x ensures RowKept(book, kept, x) &&
                      NotRewritten(kept, planned.0, x) && (x != id ==> RowKept(kept, planned.0, x)) {
        DropOrphansRows(book, poolIds, x);
        PlanRowOther(kept, maxLeases, id, next, leased, x);
      }
    }
  }

  lemma DropThenPlan(book: Book, kept: Book, id: ConversationId, next: Fingerprint, after: Book, verdict: Verdict)
    requires forall x :: RowKept(book, kept, x)
    requires PlanFacts(kept, id, next, after, verdict)
    ensures PlanFacts(book, id, next, after, verdict)
  {
    forall x | x != id ensures RowKept(book, after, x) {
      assert RowKept(book, kept, x) && RowKept(kept, after, x);
    }
    forall x ensures NotRewritten(book, after, x) {
      assert RowKept(book, kept, x) && NotRewritten(kept, after, x);
    }
    assert RowKept(book, kept, id);
  }

  lemma AfterPlanIdOk(s: State, t: TaskId, book: Book, verdict: Verdict)
    requires AllIdsOk(s)
    requires t in s.tasks && s.tasks[t].Snapped?
    requires PlanFacts(s.book, s.tasks[t].id, s.tasks[t].next, book, verdict)
    ensures IdOk(AfterPlan(s, t, book, verdict), s.tasks[t].id)
  {
    var id := s.tasks[t].id;
    var s' := AfterPlan(s, t, book, verdict);
    assert IdOk(s, id);
    assert forall u :: u != t ==> (Owner(s', u, id) <==> Owner(s, u, id));
    if Owning(s', t) {
      assert SoleOwner(s', t, id);
      assert TurnOk(s', t);
    } else {
      assert SameOwners(s, s', id);
      FrameId(s, s', id);
    }
  }

  lemma AfterPlanHistory(s: State, t: TaskId, book: Book, verdict: Verdict)
    requires RowsAreLastCommits(s) && ReplaysHonest(s.log)
    requires t in s.tasks && s.tasks[t].Snapped?
    requires PlanFacts(s.book, s.tasks[t].id, s.tasks[t].next, book, verdict)
    ensures RowsAreLastCommits(AfterPlan(s, t, book, verdict)) && ReplaysHonest(AfterPlan(s, t, book, verdict).log)
  {
    var s' := AfterPlan(s, t, book, verdict);
    forall x | x in s'.book.live
      ensures LastCommit(s.log, x) == Some((s'.book.live[x].fingerprint, s'.book.live[x].lastResult))
    {
      assert NotRewritten(s.book, book, x);
    }
    if verdict.Replayed? {
      var e := ReplayServed(s.tasks[t].id, s.tasks[t].next, verdict.result);
      ReplaysHonestAppend(s.log, e);
      forall x ensures LastCommit(s'.log, x) == LastCommit(s.log, x) { LastCommitAppend(s.log, e, x); }
    }
  }

  lemma KeepPlan(s: State, maxLeases: nat, t: TaskId)
    requires Inv(s, maxLeases)
    ensures Inv(TakePlan(s, maxLeases, t), maxLeases)
  {
    if t in s.tasks && s.tasks[t].Snapped? {
      var Snapped(id, next, poolIds) := s.tasks[t];
      PlanBookOk(s.book, maxLeases, id, next, poolIds, IsLeased(s.pool, id));
      PlanBookFacts(s.book, maxLeases, id, next, poolIds, IsLeased(s.pool, id));
      var planned := PlanBook(s.book, maxLeases, id, next, poolIds, IsLeased(s.pool, id));
      KeepAfterPlan(s, maxLeases, t, planned.0, planned.1);
    }
  }

  lemma KeepAfterPlan(s: State, maxLeases: nat, t: TaskId, book: Book, verdict: Verdict)
    requires Inv(s, maxLeases) && BookOk(book, maxLeases)
    requires t in s.tasks && s.tasks[t].Snapped?
    requires PlanFacts(s.book, s.tasks[t].id, s.tasks[t].next, book, verdict)
    ensures Inv(AfterPlan(s, t, book, verdict), maxLeases)
  {
    AfterPlanIdOk(s, t, book, verdict);
    AfterPlanHistory(s, t, book, verdict);
    FrameOthers(s, AfterPlan(s, t, book, verdict), t, s.tasks[t].id);
  }

  lemma ReleaseRows(book: Book, id: ConversationId, x: ConversationId)
    ensures RowKept(book, ReleaseBook(book, id), x)
  {
  }

  lemma RecoverRows(book: Book, id: ConversationId, keep: bool, x: ConversationId)
    requires x != id
    ensures RowKept(book, RecoverBook(book, id, keep), x)
  {
  }

  lemma KeepSweep(s: State, maxLeases: nat, t: TaskId)
    requires Inv(s, maxLeases)
    ensures Inv(TakeSweep(s, t), maxLeases)
  {
    if t in s.tasks && s.tasks[t].SweepSnapped? {
      DropOrphansOk(s.book, maxLeases, s.tasks[t].poolIds);
      var s' := TakeSweep(s, t);
      forall x ensures IdOk(s', x) {
        assert IdOk(s, x);
        assert SameOwners(s, s', x);
        FrameId(s, s', x);
      }
    }
  }

  lemma KeepRelease(s: State, maxLeases: nat, t: TaskId)
    requires Inv(s, maxLeases)
    ensures Inv(TakeRelease(s, t), maxLeases)
  {
    if t in s.tasks && s.tasks[t].ReleaseAsked? {
      ReleaseBookOk(s.book, maxLeases, s.tasks[t].id);
      forall x ensures IdOk(TakeRelease(s, t), x) {
        assert IdOk(s, x);
        ReleaseIdOk(s, t, x);
      }
    }
  }

  lemma ReleaseIdOk(s: State, t: TaskId, x: ConversationId)
    requires IdOk(s, x) && t in s.tasks && s.tasks[t].ReleaseAsked?
    ensures IdOk(TakeRelease(s, t), x)
  {
    var s' := TakeRelease(s, t);
    ReleaseRows(s.book, s.tasks[t].id, x);
    assert SameOwners(s, s', x);
    FrameId(s, s', x);
  }

  /** `/clear` of a resting cell, by anybody at any time, breaks nothing. */
  lemma KeepExpire(s: State, maxLeases: nat, id: ConversationId)
    requires Inv(s, maxLeases)
    ensures Inv(s.(pool := ReleaseCell(s.pool, id)), maxLeases)
  {
    var s' := s.(pool := ReleaseCell(s.pool, id));
    forall x ensures IdOk(s', x) {
      assert IdOk(s, x);
      assert SameOwners(s, s', x);
      if x != id || s' == s {
        FrameId(s, s', x);
      } else if Claimed(s.book, x) {
        var t :| SoleOwner(s, t, x) && TurnOk(s, t);
        assert SoleOwner(s', t, x) && TurnOk(s', t);
      } else {
        assert NoOwner(s', x);
      }
    }
  }

  lemma KeepEvict(s: State, maxLeases: nat, t: TaskId)
    requires Inv(s, maxLeases)
    ensures Inv(TakeEvict(s, t), maxLeases)
  {
    if t in s.tasks && s.tasks[t].Evicting? {
      var id := s.tasks[t].id;
      KeepExpire(s, maxLeases, id);
      var now := TakeEvict(s, t).tasks[t];
      KeepByStranger(s.(pool := ReleaseCell(s.pool, id)), maxLeases, t, now);
    }
  }

  lemma CommitIdOk(s: State, maxLeases: nat, t: TaskId)
    requires Inv(s, maxLeases) && Owning(s, t) && s.tasks[t].pc.Answered?
    ensures IdOk(TakeCommit(s, t), s.tasks[t].id)
  {
    OwnerTurnOk(s, t);
    var id := s.tasks[t].id;
    var s' := TakeCommit(s, t);
    assert NoOwner(s', id) by {
      assert forall u :: Owner(s', u, id) ==> Owner(s, u, id) && u != t;
    }
  }

  lemma CommitRows(s: State, t: TaskId)
    requires RowsAreLastCommits(s) && Owning(s, t) && s.tasks[t].pc.Answered?
    ensures RowsAreLastCommits(TakeCommit(s, t))
  {
    var Turn(id, next, _, Answered(_, result, cell)) := s.tasks[t];
    var s' := TakeCommit(s, t);
    forall x | x in s'.book.live
      ensures LastCommit(s'.log, x) == Some((s'.book.live[x].fingerprint, s'.book.live[x].lastResult))
    {
      LastCommitAppend(s.log, Committed(id, next, result), x);
    }
  }

  lemma KeepCommit(s: State, maxLeases: nat, t: TaskId)
    requires Inv(s, maxLeases)
    ensures Inv(TakeCommit(s, t), maxLeases)
  {
    if Owning(s, t) && s.tasks[t].pc.Answered? {
      var Turn(id, next, _, Answered(_, result, cell)) := s.tasks[t];
      OwnerTurnOk(s, t);
      CommitBookOk(s.book, maxLeases, id, next, result, cell);
      CommitIdOk(s, maxLeases, t);
      FrameOthers(s, TakeCommit(s, t), t, id);
      CommitRows(s, t);
      ReplaysHonestAppend(s.log, Committed(id, next, result));
    }
  }

  lemma RecoverIdOk(s: State, maxLeases: nat, t: TaskId)
    requires Inv(s, maxLeases) && Owning(s, t) && s.tasks[t].pc.Judged?
    ensures IdOk(TakeRecover(s, t), s.tasks[t].id)
  {
    var id := s.tasks[t].id;
    OwnerTurnOk(s, t);
    var s' := TakeRecover(s, t);
    assert NoOwner(s', id) by {
      assert forall u :: Owner(s', u, id) ==> Owner(s, u, id) && u != t;
    }
  }

  lemma RecoverAround(s: State, t: TaskId)
    requires Owning(s, t) && s.tasks[t].pc.Judged?
    ensures StepAround(s, TakeRecover(s, t), t, s.tasks[t].id)
  {
    var Turn(id, _, _, Judged(_, keep)) := s.tasks[t];
    forall x | x != id ensures RowKept(s.book, TakeRecover(s, t).book, x) {
      RecoverRows(s.book, id, keep, x);
    }
  }

  lemma RecoverCommits(s: State, t: TaskId)
    requires RowsAreLastCommits(s) && Owning(s, t) && s.tasks[t].pc.Judged?
    ensures RowsAreLastCommits(TakeRecover(s, t))
  {
  }

  lemma KeepRecover(s: State, maxLeases: nat, t: TaskId)
    requires Inv(s, maxLeases)
    ensures Inv(TakeRecover(s, t), maxLeases)
  {
    if Owning(s, t) && s.tasks[t].pc.Judged? {
      var Turn(id, _, _, Judged(_, keep)) := s.tasks[t];
      RecoverBookOk(s.book, maxLeases, id, keep);
      RecoverIdOk(s, maxLeases, t);
      RecoverAround(s, t);
      FrameOthers(s, TakeRecover(s, t), t, id);
      RecoverCommits(s, t);
    }
  }

  lemma KeepSnapshot(s: State, maxLeases: nat, t: TaskId)
    requires Inv(s, maxLeases)
    ensures Inv(TakeSnapshot(s, t), maxLeases)
  {
    var s' := TakeSnapshot(s, t);
    if s' != s { KeepByStranger(s, maxLeases, t, s'.tasks[t]); }
  }

  lemma KeepPoolStep(s: State, maxLeases: nat, step: Step)
    requires Inv(s, maxLeases) && WithPool(step)
    ensures Inv(Apply(s, maxLeases, step), maxLeases)
  {
    match step
    case ClearForReprime(t, refusal) => KeepClear(s, maxLeases, t, refusal);
    case ResumeCell(t, refusal) => KeepResume(s, maxLeases, t, refusal);
    case ClaimCell(t, refusal) => KeepClaim(s, maxLeases, t, refusal);
    case Admit(t, failure, token) => KeepAdmit(s, maxLeases, t, failure, token);
    case Deliver(t, failure, result) => KeepDeliver(s, maxLeases, t, failure, result);
  }

  lemma KeepOtherStep(s: State, maxLeases: nat, step: Step)
    requires Inv(s, maxLeases) && !WithPool(step)
    ensures Inv(Apply(s, maxLeases, step), maxLeases)
  {
    match step
    case Ask(t, id, next) => if t !in s.tasks { KeepByStranger(s, maxLeases, t, Asked(id, next)); }
    case AskRelease(t, id) => if t !in s.tasks { KeepByStranger(s, maxLeases, t, ReleaseAsked(id)); }
    case AskSweep(t) => if t !in s.tasks { KeepByStranger(s, maxLeases, t, SweepAsked); }
    case Snapshot(t) => KeepSnapshot(s, maxLeases, t);
    case PlanTurn(t) => KeepPlan(s, maxLeases, t);
    case Sweep(t) => KeepSweep(s, maxLeases, t);
    case ReleaseRow(t) => KeepRelease(s, maxLeases, t);
    case Evict(t) => KeepEvict(s, maxLeases, t);
    case CommitTurn(t) => KeepCommit(s, maxLeases, t);
    case Judge(t) => KeepJudge(s, maxLeases, t);
    case Recover(t) => KeepRecover(s, maxLeases, t);
    case Expire(id) => KeepExpire(s, maxLeases, id);
  }

  lemma KeepStep(s: State, maxLeases: nat, step: Step)
    requires Inv(s, maxLeases)
    ensures Inv(Apply(s, maxLeases, step), maxLeases)
  {
    if WithPool(step) {
      KeepPoolStep(s, maxLeases, step);
    } else {
      KeepOtherStep(s, maxLeases, step);
    }
  }

  lemma {:induction false} RunKeeps(s: State, maxLeases: nat, steps: seq<Step>)
    requires Inv(s, maxLeases)
    ensures Inv(Run(s, maxLeases, steps), maxLeases)
    decreases |steps|
  {
    if steps != [] {
      KeepStep(s, maxLeases, steps[0]);
      RunKeeps(Apply(s, maxLeases, steps[0]), maxLeases, steps[1..]);
    }
  }

  /** Every state of every run satisfies the invariant. */
  lemma ReachableInv(s: State, maxLeases: nat)
    requires Reachable(s, maxLeases)
    ensures Inv(s, maxLeases)
  {
    var steps :| Run(Init(), maxLeases, steps) == s;
    InitInv(maxLeases);
    RunKeeps(Init(), maxLeases, steps);
  }
}
