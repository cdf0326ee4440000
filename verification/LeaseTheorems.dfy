/** What the lease protocol promises in every reachable state, however requests,
    releases, sweeps and pool expiry interleave and however stale a snapshot is. */
module LeaseTheorems {
  import opened Common
  import opened LeasePool
  import opened LeaseBook
  import opened LeaseProtocol
  import opened LeaseInvariant

  /** An idle row whose cell the pool still holds describes that cell exactly:
      same class, same cell token, and the messages typed since the last clear
      -- primer and every suffix, concatenated -- are the row's messages. */
  lemma IdleCellHoldsItsRow(s: State, maxLeases: nat, id: ConversationId)
    requires Reachable(s, maxLeases)
    requires id in s.book.live && !s.book.live[id].inFlight && id in s.pool
    ensures var row := s.book.live[id];
            && s.pool[id].Leased?
            && s.pool[id].cls == row.fingerprint.cls
            && s.pool[id].token == row.cell
            && Heard(s.pool[id].transcript) == Some((row.fingerprint.systemTools, row.fingerprint.messages))
  {
    ReachableInv(s, maxLeases);
    assert IdOk(s, id);
    assert id !in s.book.reserved;
  }

  /** The same for a turn that has its answer and has not committed yet. */
  lemma AnsweredCellHoldsRequest(s: State, maxLeases: nat, t: TaskId)
    requires Reachable(s, maxLeases)
    requires Owning(s, t) && s.tasks[t].pc.Answered? && s.tasks[t].id in s.pool
    ensures var Turn(id, next, _, pc) := s.tasks[t];
            && s.pool[id].Leased? && s.pool[id].cls == next.cls && s.pool[id].token == pc.cell
            && Heard(s.pool[id].transcript) == Some((next.systemTools, next.messages))
  {
    ReachableInv(s, maxLeases);
    OwnerTurnOk(s, t);
  }

  /** At most one turn owns a conversation; a first turn owns it exactly while
      the id is reserved, a later one exactly while its row is in flight. */
  lemma OwnershipIsExact(s: State, maxLeases: nat, id: ConversationId)
    requires Reachable(s, maxLeases)
    ensures forall t, u :: Owner(s, t, id) && Owner(s, u, id) ==> t == u
    ensures id in s.book.reserved <==> exists t :: Owner(s, t, id) && s.tasks[t].plan.Prime?
    ensures id in s.book.live && s.book.live[id].inFlight
            <==> exists t :: Owner(s, t, id) && !s.tasks[t].plan.Prime?
  {
    ReachableInv(s, maxLeases);
    assert IdOk(s, id);
    if Claimed(s.book, id) {
      var t :| SoleOwner(s, t, id) && TurnOk(s, t);
      assert Owner(s, t, id);
    }
  }

  lemma CapIsNeverExceeded(s: State, maxLeases: nat)
    requires Reachable(s, maxLeases)
    ensures s.book.live.Keys !! s.book.reserved && |s.book.live| + |s.book.reserved| <= maxLeases
  {
    ReachableInv(s, maxLeases);
  }

  /** With no turn under way the book holds no mark: nothing is left busy. */
  lemma QuiescentBookIsIdle(s: State, maxLeases: nat)
    requires Reachable(s, maxLeases)
    requires forall t :: t in s.tasks ==> !s.tasks[t].Turn?
    ensures s.book.reserved == {}
    ensures forall id :: id in s.book.live ==> !s.book.live[id].inFlight
  {
    forall id ensures id !in s.book.reserved && (id in s.book.live ==> !s.book.live[id].inFlight) {
      OwnershipIsExact(s, maxLeases, id);
    }
  }

  // ---- replays ----

  /** Every replay ever served carried the answer of the last turn committed for
      that id before it, and that turn's request was the same request. */
  lemma ReplayIsLastCommit(s: State, maxLeases: nat, k: nat)
    requires Reachable(s, maxLeases)
    requires k < |s.log| && s.log[k].ReplayServed?
    ensures LastCommit(s.log[..k], s.log[k].id) == Some((s.log[k].fingerprint, s.log[k].result))
  {
    ReachableInv(s, maxLeases);
  }

  lemma ReplayNeedsLease(book: Book, maxLeases: nat, id: ConversationId, next: Fingerprint,
                         poolIds: set<ConversationId>, leased: bool)
    ensures PlanBook(book, maxLeases, id, next, poolIds, leased).1.Replayed? ==> leased
  {
  }

  /** A replay is served from a cell that holds exactly the request, and types
      nothing into any cell. */
  lemma ReplayTypesNothing(s: State, maxLeases: nat, t: TaskId, book: Book, cell: string, result: string)
    requires Reachable(s, maxLeases)
    requires t in s.tasks && s.tasks[t].Snapped?
    requires PlanBook(s.book, maxLeases, s.tasks[t].id, s.tasks[t].next, s.tasks[t].poolIds,
                      IsLeased(s.pool, s.tasks[t].id)) == (book, Replayed(cell, result))
    ensures var Snapped(id, next, _) := s.tasks[t];
            && TakePlan(s, maxLeases, t).pool == s.pool
            && TakePlan(s, maxLeases, t).tasks[t] == Finished(Answer(WasReplayed, cell, result))
            && id in s.pool && Holds(s.pool[id], next, cell)
            && LastCommit(s.log, id) == Some((next, result))
  {
    ReachableInv(s, maxLeases);
    var Snapped(id, next, poolIds) := s.tasks[t];
    PlanBookFacts(s.book, maxLeases, id, next, poolIds, IsLeased(s.pool, id));
    ReplayNeedsLease(s.book, maxLeases, id, next, poolIds, IsLeased(s.pool, id));
    assert IdOk(s, id);
  }

  // ---- the pool never contradicts the book ----

  /** A planned continuation finds its cell resting and of the right class, or
      finds none: the pool cannot answer SessionBusy or a class mismatch. */
  lemma ResumeNeverClashes(s: State, maxLeases: nat, t: TaskId)
    requires Reachable(s, maxLeases)
    requires OwningAt(s, t, Start) && s.tasks[t].plan.Continuation?
    ensures TakeResume(s, t, None).tasks[t].pc
            == if s.tasks[t].id in s.pool then Running(true) else Claiming
  {
    ReachableInv(s, maxLeases);
    OwnerTurnOk(s, t);
  }

  /** A reprime, or a continuation that lost its cell, is never told that the
      conversation already holds an instance. */
  lemma FallbackClaimIsFree(s: State, maxLeases: nat, t: TaskId)
    requires Reachable(s, maxLeases)
    requires OwningAt(s, t, Claiming)
    ensures s.tasks[t].id !in s.pool && TakeClaim(s, t, None).tasks[t].pc == Admitting
  {
    ReachableInv(s, maxLeases);
    OwnerTurnOk(s, t);
  }

  /** A first turn is refused by the pool exactly when a resting cell of that
      conversation outlived its row. */
  lemma PrimeRefusedIffCellOutlivesRow(s: State, maxLeases: nat, t: TaskId)
    requires Reachable(s, maxLeases)
    requires OwningAt(s, t, Start) && s.tasks[t].plan.Prime?
    ensures s.tasks[t].id !in s.book.live
    ensures TakeClaim(s, t, None).tasks[t].pc == Failed(SessionBusy) <==> IsLeased(s.pool, s.tasks[t].id)
  {
    ReachableInv(s, maxLeases);
    OwnerTurnOk(s, t);
  }

  /** What the end of a turn leaves: answered, the cell has heard exactly the request,
      the primer alone or the suffix after what it held; failed, it is gone. No other
      conversation's cell changes. */
  lemma DeliveredCell(s: State, maxLeases: nat, t: TaskId, failure: Option<ErrorCode>, result: string)
    requires Reachable(s, maxLeases)
    requires Owning(s, t) && s.tasks[t].pc.Running?
    ensures var Turn(id, next, plan, pc) := s.tasks[t];
            var pool := TakeDeliver(s, t, failure, result).pool;
            && id in s.pool && s.pool[id].CheckedOut?
            && (failure.Some? ==> id !in pool)
            && (failure.None? ==>
                  && id in pool && Holds(pool[id], next, s.pool[id].token)
                  && (!pc.resumed ==> pool[id].transcript == [Primer(next.systemTools, next.messages)])
                  && (pc.resumed ==>
                        && plan.Continuation? && plan.from <= |next.messages|
                        && plan.held.fingerprint.messages + next.messages[plan.from..] == next.messages
                        && pool[id].transcript == s.pool[id].transcript + [Suffix(next.messages[plan.from..])]))
            && (forall x :: x != id ==> SeenCell(pool, x) == SeenCell(s.pool, x))
  {
    ReachableInv(s, maxLeases);
    OwnerTurnOk(s, t);
    var turn := s.tasks[t];
    AnsweredHolds(s.book, s.pool[turn.id], t, turn, turn.pc.resumed);
  }

  // ---- failed turns ----

  function Phase(task: Task): nat {
    match task
    case Asked(_, _) => 0
    case Snapped(_, _, _) => 1
    case Turn(_, _, _, _) => 2
    case _ => 3
  }

  /** A task never goes back, and a turn never changes what it was planned on. */
  ghost predicate Forward(s: State, s': State, t: TaskId) {
    t in s.tasks ==>
      && t in s'.tasks && Phase(s'.tasks[t]) >= Phase(s.tasks[t])
      && (s.tasks[t].Turn? && s'.tasks[t].Turn? ==>
            s'.tasks[t].plan == s.tasks[t].plan && s'.tasks[t].id == s.tasks[t].id)
  }

  lemma PlanForward(s: State, maxLeases: nat, u: TaskId, t: TaskId)
    ensures Forward(s, TakePlan(s, maxLeases, u), t)
  {
    if u in s.tasks && s.tasks[u].Snapped? {
      var Snapped(id, next, poolIds) := s.tasks[u];
      var planned := PlanBook(s.book, maxLeases, id, next, poolIds, IsLeased(s.pool, id));
      AfterPlanForward(s, u, planned.0, planned.1, t);
    }
  }

  lemma AfterPlanForward(s: State, u: TaskId, book: Book, verdict: Verdict, t: TaskId)
    requires u in s.tasks && s.tasks[u].Snapped?
    requires verdict.GoContinue? ==> s.tasks[u].id in s.book.live
    ensures Forward(s, AfterPlan(s, u, book, verdict), t)
  {
  }

  lemma BookStepsForward(s: State, u: TaskId, t: TaskId)
    ensures Forward(s, TakeSweep(s, u), t) && Forward(s, TakeRelease(s, u), t)
    ensures Forward(s, TakeCommit(s, u), t) && Forward(s, TakeRecover(s, u), t)
  {
  }

  lemma CellStepsForward(s: State, u: TaskId, code: Option<ErrorCode>, text: string, t: TaskId)
    ensures Forward(s, TakeAdmit(s, u, code, text), t) && Forward(s, TakeDeliver(s, u, code, text), t)
    ensures Forward(s, TakeEvict(s, u), t) && Forward(s, TakeJudge(s, u), t)
  {
  }

  lemma StartStepsForward(s: State, u: TaskId, code: Option<ErrorCode>, t: TaskId)
    ensures Forward(s, TakeClear(s, u, code), t) && Forward(s, TakeClaim(s, u, code), t)
    ensures Forward(s, TakeResume(s, u, code), t) && Forward(s, TakeSnapshot(s, u), t)
  {
  }

  lemma PoolStepForward(s: State, maxLeases: nat, step: Step, t: TaskId)
    requires WithPool(step)
    ensures Forward(s, Apply(s, maxLeases, step), t)
  {
    match step
    case ResumeCell(u, refusal) => StartStepsForward(s, u, refusal, t);
    case ClearForReprime(u, refusal) => StartStepsForward(s, u, refusal, t);
    case ClaimCell(u, refusal) => StartStepsForward(s, u, refusal, t);
    case Admit(u, failure, token) => CellStepsForward(s, u, failure, token, t);
    case Deliver(u, failure, result) => CellStepsForward(s, u, failure, result, t);
  }

  lemma OtherStepForward(s: State, maxLeases: nat, step: Step, t: TaskId)
    requires !WithPool(step)
    ensures Forward(s, Apply(s, maxLeases, step), t)
  {
    match step
    case Ask(_, _, _) =>
    case AskRelease(_, _) =>
    case AskSweep(_) =>
    case Snapshot(u) => StartStepsForward(s, u, None, t);
    case PlanTurn(u) => PlanForward(s, maxLeases, u, t);
    case Sweep(u) => BookStepsForward(s, u, t);
    case ReleaseRow(u) => BookStepsForward(s, u, t);
    case CommitTurn(u) => BookStepsForward(s, u, t);
    case Recover(u) => BookStepsForward(s, u, t);
    case Evict(u) => CellStepsForward(s, u, None, "", t);
    case Judge(u) => CellStepsForward(s, u, None, "", t);
    case Expire(_) =>
  }

  lemma StepForward(s: State, maxLeases: nat, step: Step, t: TaskId)
    ensures Forward(s, Apply(s, maxLeases, step), t)
  {
    if WithPool(step) {
      PoolStepForward(s, maxLeases, step, t);
    } else {
      OtherStepForward(s, maxLeases, step, t);
    }
  }

  lemma {:induction false} RunForward(s: State, maxLeases: nat, steps: seq<Step>, t: TaskId)
    requires t in s.tasks && Phase(s.tasks[t]) >= 2
    ensures Forward(s, Run(s, maxLeases, steps), t)
    decreases |steps|
  {
    if steps != [] {
      StepForward(s, maxLeases, steps[0], t);
      RunForward(Apply(s, maxLeases, steps[0]), maxLeases, steps[1..], t);
    }
  }

  /** What recovery does, seen from the state it starts in. */
  lemma RecoverOutcome(s: State, maxLeases: nat, t: TaskId)
    requires Inv(s, maxLeases) && Owning(s, t) && s.tasks[t].pc.Judged?
    ensures var Turn(id, _, plan, Judged(code, keep)) := s.tasks[t];
            var after := TakeRecover(s, t);
            if keep then
              && code == InvalidConfig && plan.Continuation?
              && id in after.book.live && after.book.live[id] == plan.held
              && (id in after.pool ==> plan.seen == Some(after.pool[id]))
            else id !in after.book.live && id !in after.book.reserved
  {
    OwnerTurnOk(s, t);
  }

  /** From planning to recovery, whatever ran in between. A continuation that is
      kept gets back the very row it was planned on, and its cell, if still
      there, is the very cell; any other failure leaves no row and no mark. */
  lemma RefusedContinuationRestoresRow(s: State, maxLeases: nat, t: TaskId, between: seq<Step>)
    requires Reachable(s, maxLeases)
    requires t in s.tasks && s.tasks[t].Snapped?
    requires var planned := TakePlan(s, maxLeases, t); Owning(planned, t) && planned.tasks[t].plan.Continuation?
    requires var failed := Run(TakePlan(s, maxLeases, t), maxLeases, between);
             Owning(failed, t) && failed.tasks[t].pc.Judged?
    ensures var failed := Run(TakePlan(s, maxLeases, t), maxLeases, between);
            var after := TakeRecover(failed, t);
            var id := s.tasks[t].id;
            if failed.tasks[t].pc.keep then
              && failed.tasks[t].pc.code == InvalidConfig
              && id in s.book.live && id in after.book.live && after.book.live[id] == s.book.live[id]
              && (id in after.pool ==> id in s.pool && after.pool[id] == s.pool[id])
            else id !in after.book.live && id !in after.book.reserved
  {
    PlannedOn(s, maxLeases, t);
    PlannedInv(s, maxLeases, t);
    JudgedAfterRun(TakePlan(s, maxLeases, t), maxLeases, t, between);
  }

  lemma PlannedInv(s: State, maxLeases: nat, t: TaskId)
    requires Reachable(s, maxLeases)
    ensures Inv(TakePlan(s, maxLeases, t), maxLeases)
  {
    ReachableInv(s, maxLeases);
    KeepPlan(s, maxLeases, t);
  }

  /** A judged turn's recovery, in terms of the plan it started from. */
  lemma JudgedAfterRun(planned: State, maxLeases: nat, t: TaskId, between: seq<Step>)
    requires Inv(planned, maxLeases) && Owning(planned, t) && planned.tasks[t].plan.Continuation?
    requires var failed := Run(planned, maxLeases, between); Owning(failed, t) && failed.tasks[t].pc.Judged?
    ensures var failed := Run(planned, maxLeases, between);
            var after := TakeRecover(failed, t);
            var Turn(id, _, plan, _) := planned.tasks[t];
            if failed.tasks[t].pc.keep then
              && failed.tasks[t].pc.code == InvalidConfig
              && id in after.book.live && after.book.live[id] == plan.held
              && (id in after.pool ==> plan.seen == Some(after.pool[id]))
            else id !in after.book.live && id !in after.book.reserved
  {
    RunKeeps(planned, maxLeases, between);
    RunForward(planned, maxLeases, between, t);
    RecoverOutcome(Run(planned, maxLeases, between), maxLeases, t);
  }

  lemma PlannedOn(s: State, maxLeases: nat, t: TaskId)
    requires t in s.tasks && s.tasks[t].Snapped?
    requires var planned := TakePlan(s, maxLeases, t); Owning(planned, t) && planned.tasks[t].plan.Continuation?
    ensures var turn := TakePlan(s, maxLeases, t).tasks[t];
            && turn.id == s.tasks[t].id && turn.id in s.book.live
            && turn.plan.held == s.book.live[turn.id] && turn.plan.seen == SeenCell(s.pool, turn.id)
  {
    var Snapped(id, next, poolIds) := s.tasks[t];
    var planned := PlanBook(s.book, maxLeases, id, next, poolIds, IsLeased(s.pool, id));
    AfterPlanOn(s, t, planned.0, planned.1);
  }

  lemma AfterPlanOn(s: State, t: TaskId, book: Book, verdict: Verdict)
    requires t in s.tasks && s.tasks[t].Snapped?
    requires verdict.GoContinue? ==> s.tasks[t].id in s.book.live
    ensures var turn := AfterPlan(s, t, book, verdict).tasks[t];
            turn.Turn? && turn.plan.Continuation? ==>
              && turn.id == s.tasks[t].id && turn.id in s.book.live
              && turn.plan.held == s.book.live[turn.id] && turn.plan.seen == SeenCell(s.pool, turn.id)
  {
  }

  /** Recovery keeps the row for exactly one reason: a continuation refused as
      InvalidConfig whose cell the pool still holds when it is asked. */
  lemma KeepReason(s: State, maxLeases: nat, t: TaskId)
    requires Reachable(s, maxLeases)
    requires Owning(s, t) && s.tasks[t].pc.Failed?
    ensures var turn := s.tasks[t];
            TakeJudge(s, t).tasks[t].pc
            == Judged(turn.pc.code, turn.plan.Continuation? && turn.pc.code == InvalidConfig &&
                      IsLeased(s.pool, turn.id))
  {
    ReachableInv(s, maxLeases);
    OwnerTurnOk(s, t);
  }

  // ---- stale snapshots ----

  lemma {:induction false} RunAppend(s: State, maxLeases: nat, steps: seq<Step>, step: Step)
    ensures Run(s, maxLeases, steps + [step]) == Apply(Run(s, maxLeases, steps), maxLeases, step)
    decreases |steps|
  {
    if steps == [] {
      assert Run(Apply(s, maxLeases, step), maxLeases, []) == Apply(s, maxLeases, step);
    } else {
      assert (steps + [step])[1..] == steps[1..] + [step];
      RunAppend(Apply(s, maxLeases, steps[0]), maxLeases, steps[1..], step);
    }
  }

  lemma ReachableStep(s: State, maxLeases: nat, step: Step)
    requires Reachable(s, maxLeases)
    ensures Reachable(Apply(s, maxLeases, step), maxLeases)
  {
    var steps :| Run(Init(), maxLeases, steps) == s;
    RunAppend(Init(), maxLeases, steps, step);
  }

  lemma InitReachable(maxLeases: nat)
    ensures Reachable(Init(), maxLeases)
  {
    assert Run(Init(), maxLeases, []) == Init();
  }

  lemma ReachablePlan(s: State, maxLeases: nat, t: TaskId)
    requires Reachable(s, maxLeases)
    ensures Reachable(TakePlan(s, maxLeases, t), maxLeases)
  {
    ReachableStep(s, maxLeases, PlanTurn(t));
  }

  lemma ReachableClaim(s: State, maxLeases: nat, t: TaskId)
    requires Reachable(s, maxLeases)
    ensures Reachable(TakeClaim(s, t, None), maxLeases)
  {
    ReachableStep(s, maxLeases, ClaimCell(t, None));
  }

  lemma ReachableAnswer(s: State, maxLeases: nat, t: TaskId, token: string, result: string)
    requires Reachable(s, maxLeases)
    ensures Reachable(TakeDeliver(TakeAdmit(s, t, None, token), t, None, result), maxLeases)
  {
    ReachableStep(s, maxLeases, Admit(t, None, token));
    ReachableStep(TakeAdmit(s, t, None, token), maxLeases, Deliver(t, None, result));
  }

  lemma ReadyToPlan(s: State, maxLeases: nat, t: TaskId, id: ConversationId, next: Fingerprint)
    requires Reachable(s, maxLeases) && t !in s.tasks
    ensures Reachable(At(s, t, Snapped(id, next, PoolIds(s.pool))), maxLeases)
  {
    var asked := At(s, t, Asked(id, next));
    ReachableStep(s, maxLeases, Ask(t, id, next));
    ReachableStep(asked, maxLeases, Snapshot(t));
    assert TakeSnapshot(asked, t) == At(s, t, Snapped(id, next, PoolIds(s.pool)));
  }

  /** A request nobody else serves becomes a first turn. */
  function FirstTurn(s: State, t: TaskId): State
    requires t in s.tasks && s.tasks[t].Snapped?
  {
    var Snapped(id, next, poolIds) := s.tasks[t];
    var kept := DropOrphans(s.book, poolIds);
    At(s.(book := Book(kept.live, kept.reserved + {id})), t, Turn(id, next, Prime, Start))
  }

  lemma FirstTurnPlanned(s: State, maxLeases: nat, t: TaskId)
    requires t in s.tasks && s.tasks[t].Snapped?
    requires var kept := DropOrphans(s.book, s.tasks[t].poolIds);
             s.tasks[t].id !in kept.live && s.tasks[t].id !in kept.reserved && Occupied(kept) < maxLeases
    ensures TakePlan(s, maxLeases, t) == FirstTurn(s, t)
  {
  }

  function FirstAnswer(s: State, t: TaskId, token: string, result: string): State
    requires Owning(s, t)
  {
    var Turn(id, next, _, _) := s.tasks[t];
    var cell := Leased(next.cls, [Primer(next.systemTools, next.messages)], token);
    At(s.(pool := s.pool[id := cell]), t, Turn(id, next, Prime, Answered(Primed, result, token)))
  }

  lemma FirstTurnAnswered(s: State, t: TaskId, token: string, result: string)
    requires OwningAt(s, t, Start) && s.tasks[t].plan.Prime? && s.tasks[t].id !in s.pool
    ensures TakeDeliver(TakeAdmit(TakeClaim(s, t, None), t, None, token), t, None, result)
            == FirstAnswer(s, t, token, result)
  {
    var Turn(id, next, _, _) := s.tasks[t];
    var claimed := At(s.(pool := s.pool[id := Pending(t)]), t, Turn(id, next, Prime, Admitting));
    assert TakeClaim(s, t, None) == claimed;
    FirstTurnAdmitted(s, claimed, t, token, result);
  }

  lemma FirstTurnAdmitted(s: State, claimed: State, t: TaskId, token: string, result: string)
    requires Owning(s, t) && s.tasks[t].plan.Prime?
    requires claimed == At(s.(pool := s.pool[s.tasks[t].id := Pending(t)]), t, s.tasks[t].(pc := Admitting))
    ensures TakeDeliver(TakeAdmit(claimed, t, None, token), t, None, result) == FirstAnswer(s, t, token, result)
  {
    var Turn(id, next, _, _) := s.tasks[t];
    var used := CheckedOut(t, next.cls, [], token, Primer(next.systemTools, next.messages));
    var running := At(s.(pool := s.pool[id := used]), t, Turn(id, next, Prime, Running(false)));
    assert TakeAdmit(claimed, t, None, token) == running;
    assert [] + [used.prompt] == [used.prompt];
    assert TakeDeliver(running, t, None, result).pool == FirstAnswer(s, t, token, result).pool;
    assert TakeDeliver(running, t, None, result).tasks == FirstAnswer(s, t, token, result).tasks;
  }

  /** Task 2 asks about "b" and takes its snapshot; then task 1 opens "a". */
  lemma OpenBehindSnapshot(fp: Fingerprint) returns (s: State)
    ensures Reachable(s, 2)
    ensures s.book == Book(map[], {"a"}) && s.pool == map[] && s.log == []
    ensures s.tasks == map[2 := Snapped("b", fp, {}), 1 := Turn("a", fp, Prime, Start)]
  {
    InitReachable(2);
    assert PoolIds(map[]) == {};
    ReadyToPlan(Init(), 2, 2, "b", fp);
    var s1 := At(Init(), 2, Snapped("b", fp, {}));
    ReadyToPlan(s1, 2, 1, "a", fp);
    var s2 := At(s1, 1, Snapped("a", fp, {}));
    assert DropOrphans(s2.book, {}) == s2.book;
    FirstTurnPlanned(s2, 2, 1);
    ReachablePlan(s2, 2, 1);
    s := FirstTurn(s2, 1);
  }

  /** ... and commits it. Task 2's snapshot does not know "a". */
  lemma CommitBehindSnapshot(fp: Fingerprint) returns (s: State)
    ensures Reachable(s, 2)
    ensures s.book == Book(map["a" := Lease(fp, "hi", false, "s0e0")], {})
    ensures IsLeased(s.pool, "a") && s.pool.Keys == {"a"}
    ensures 3 !in s.tasks && 2 in s.tasks && s.tasks[2] == Snapped("b", fp, {})
  {
    var open := OpenBehindSnapshot(fp);
    ReachableClaim(open, 2, 1);
    ReachableAnswer(TakeClaim(open, 1, None), 2, 1, "s0e0", "hi");
    FirstTurnAnswered(open, 1, "s0e0", "hi");
    s := CommitA(fp, open, FirstAnswer(open, 1, "s0e0", "hi"));
  }

  lemma CommitA(fp: Fingerprint, open: State, answered: State) returns (s: State)
    requires Reachable(answered, 2) && open.book == Book(map[], {"a"}) && open.pool == map[]
    requires open.tasks == map[2 := Snapped("b", fp, {}), 1 := Turn("a", fp, Prime, Start)]
    requires answered == FirstAnswer(open, 1, "s0e0", "hi")
    ensures Reachable(s, 2)
    ensures s.book == Book(map["a" := Lease(fp, "hi", false, "s0e0")], {})
    ensures IsLeased(s.pool, "a") && s.pool.Keys == {"a"}
    ensures 3 !in s.tasks && 2 in s.tasks && s.tasks[2] == Snapped("b", fp, {})
  {
    ReachableStep(answered, 2, CommitTurn(1));
    s := TakeCommit(answered, 1);
  }

  /** The snapshot is taken before the lock, so a row committed in between looks
      orphaned: planning "b" drops the row of "a" although the cell of "a" rests
      in the pool and no task ever asked for its release. */
  lemma StaleSnapshotLosesRow(fp: Fingerprint) returns (before: State, lost: State)
    ensures Reachable(before, 2) && "a" in before.book.live && !before.book.live["a"].inFlight
    ensures lost == TakePlan(before, 2, 2) && Reachable(lost, 2)
    ensures lost.book == Book(map[], {"b"}) && IsLeased(lost.pool, "a") && lost.pool.Keys == {"a"} && 3 !in lost.tasks
  {
    before := CommitBehindSnapshot(fp);
    assert Orphans(before.book.live, {}) == {"a"};
    assert DropOrphans(before.book, {}) == Book(map[], {});
    FirstTurnPlanned(before, 2, 2);
    ReachablePlan(before, 2, 2);
    lost := FirstTurn(before, 2);
  }

  /** The next turn of "a" is then refused as busy, although none is under way. */
  lemma LostRowRefusesNextTurn(fp: Fingerprint) returns (s: State)
    ensures Reachable(s, 2)
    ensures 3 in s.tasks && s.tasks[3] == Turn("a", fp, Prime, Failed(SessionBusy))
  {
    var _, lost := StaleSnapshotLosesRow(fp);
    ReadyToPlan(lost, 2, 3, "a", fp);
    var ready := At(lost, 3, Snapped("a", fp, PoolIds(lost.pool)));
    assert DropOrphans(ready.book, PoolIds(lost.pool)) == ready.book;
    FirstTurnPlanned(ready, 2, 3);
    ReachablePlan(ready, 2, 3);
    ReachableClaim(FirstTurn(ready, 3), 2, 3);
    s := ClaimOnLeased(FirstTurn(ready, 3), 3);
  }

  lemma ClaimOnLeased(planned: State, t: TaskId) returns (s: State)
    requires OwningAt(planned, t, Start) && planned.tasks[t].plan.Prime? && IsLeased(planned.pool, planned.tasks[t].id)
    ensures s == TakeClaim(planned, t, None)
    ensures t in s.tasks && s.tasks[t] == planned.tasks[t].(pc := Failed(SessionBusy))
  {
    s := TakeClaim(planned, t, None);
  }
}
