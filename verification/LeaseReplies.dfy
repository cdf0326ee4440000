/** What each caller is told, and that it is what happened: answers, refusals and
    releases, over every interleaving. */
module LeaseReplies {
  import opened Common
  import opened LeasePool
  import opened LeaseBook
  import opened LeaseProtocol
  import opened LeaseInvariant
  import opened LeaseTheorems
  import opened LeaseSnapshots

  // ---- answers ----

  /** A turn that is delivered remembers the result it was given, the cell it was typed
      into and how it got there: primed by a first turn, continued when the suffix was
      typed, reprimed otherwise. */
  lemma DeliveredAnswer(s: State, maxLeases: nat, t: TaskId, result: string)
    requires Reachable(s, maxLeases)
    requires Owning(s, t) && s.tasks[t].pc.Running?
    ensures var Turn(id, next, plan, pc) := s.tasks[t];
            && id in s.pool && s.pool[id].CheckedOut?
            && Owning(TakeDeliver(s, t, None, result), t)
            && var answered := TakeDeliver(s, t, None, result).tasks[t];
            && answered.pc.Answered? && answered == s.tasks[t].(pc := answered.pc)
            && answered.pc.result == result && answered.pc.cell == s.pool[id].token
            && (answered.pc.kind == Primed <==> plan.Prime?)
            && (answered.pc.kind == Continued <==> pc.resumed)
            && (answered.pc.kind == Reprimed <==> !plan.Prime? && !pc.resumed)
  {
    ReachableInv(s, maxLeases);
    OwnerTurnOk(s, t);
  }

  /** The caller is told the cell and the result that the committed row remembers, and
      they are the ones the turn was answered with. */
  lemma CommitReply(s: State, t: TaskId)
    requires Owning(s, t) && s.tasks[t].pc.Answered?
    ensures var Turn(id, next, _, Answered(kind, result, cell)) := s.tasks[t];
            var after := TakeCommit(s, t);
            && id in after.book.live
            && after.tasks[t] == Finished(Answer(kind, after.book.live[id].cell, after.book.live[id].lastResult))
            && after.book.live[id] == Lease(next, result, false, cell)
            && after.log == s.log + [Committed(id, next, result)]
            && after.pool == s.pool
  {
  }

  /** A step of one task, or of the pool, leaves every other task as it was. */
  lemma OthersStay(s: State, maxLeases: nat, step: Step, t: TaskId)
    requires t in s.tasks && (step.Expire? || step.task != t)
    ensures t in Apply(s, maxLeases, step).tasks && Apply(s, maxLeases, step).tasks[t] == s.tasks[t]
    ensures s.log <= Apply(s, maxLeases, step).log
  {
    StepGuarded(s, maxLeases, step, "");
  }

  lemma AnsweredOwnStep(s: State, maxLeases: nat, step: Step, t: TaskId)
    requires Owning(s, t) && s.tasks[t].pc.Answered? && !step.Expire? && step.task == t
    ensures step.CommitTurn? || Apply(s, maxLeases, step) == s
  {
  }

  lemma FinishedOwnStep(s: State, maxLeases: nat, step: Step, t: TaskId)
    requires t in s.tasks && s.tasks[t].Finished? && !step.Expire? && step.task == t
    ensures Apply(s, maxLeases, step) == s
  {
  }

  /** The answered turn waits, or its caller has the answer and the log the commit. */
  ghost predicate Answering(s: State, t: TaskId, turn: Task, n: nat)
    requires turn.Turn? && turn.pc.Answered?
  {
    var Answered(kind, result, cell) := turn.pc;
    && t in s.tasks && n <= |s.log|
    && (s.tasks[t] == turn
        || (&& s.tasks[t] == Finished(Answer(kind, cell, result))
            && LoggedSince(s.log, n, Committed(turn.id, turn.next, result))))
  }

  ghost predicate LoggedSince(log: seq<Event>, n: nat, e: Event) {
    exists k :: n <= k < |log| && log[k] == e
  }

  lemma LoggedStays(log: seq<Event>, longer: seq<Event>, n: nat, e: Event)
    requires LoggedSince(log, n, e) && log <= longer
    ensures LoggedSince(longer, n, e)
  {
    var k :| n <= k < |log| && log[k] == e;
    assert longer[k] == e;
  }

  lemma AnsweringStep(s: State, maxLeases: nat, step: Step, t: TaskId, turn: Task, n: nat)
    requires turn.Turn? && turn.pc.Answered? && Answering(s, t, turn, n)
    ensures Answering(Apply(s, maxLeases, step), t, turn, n)
  {
    var after := Apply(s, maxLeases, step);
    var e := Committed(turn.id, turn.next, turn.pc.result);
    if step.Expire? || step.task != t {
      OthersStay(s, maxLeases, step, t);
      if LoggedSince(s.log, n, e) {
        LoggedStays(s.log, after.log, n, e);
      }
    } else if s.tasks[t].Finished? {
      FinishedOwnStep(s, maxLeases, step, t);
    } else {
      AnsweredOwnStep(s, maxLeases, step, t);
      if step.CommitTurn? {
        CommitReply(s, t);
        assert after.log[|s.log|] == e;
      }
    }
  }

  lemma {:induction false} AnsweringRun(s: State, maxLeases: nat, steps: seq<Step>, t: TaskId, turn: Task, n: nat)
    requires turn.Turn? && turn.pc.Answered? && Answering(s, t, turn, n)
    ensures Answering(Run(s, maxLeases, steps), t, turn, n)
    decreases |steps|
  {
    if steps != [] {
      AnsweringStep(s, maxLeases, steps[0], t, turn, n);
      AnsweringRun(Apply(s, maxLeases, steps[0]), maxLeases, steps[1..], t, turn, n);
    }
  }

  /** From delivery to reply, whatever runs in between: a caller that is answered gets
      the delivered result, the cell it was typed into and the right kind, and that
      turn is in the log. */
  lemma AnswerReachesCaller(s: State, maxLeases: nat, t: TaskId, result: string, between: seq<Step>)
    requires Reachable(s, maxLeases)
    requires Owning(s, t) && s.tasks[t].pc.Running?
    ensures var Turn(id, next, plan, pc) := s.tasks[t];
            var s1 := Run(TakeDeliver(s, t, None, result), maxLeases, between);
            && t in s1.tasks && id in s.pool && s.pool[id].CheckedOut?
            && (s1.tasks[t].Finished? ==>
                  && s1.tasks[t].reply == Answer(
                       if plan.Prime? then Primed else if pc.resumed then Continued else Reprimed,
                       s.pool[id].token, result)
                  && LoggedSince(s1.log, |s.log|, Committed(id, next, result)))
  {
    DeliveredAnswer(s, maxLeases, t, result);
    var delivered := TakeDeliver(s, t, None, result);
    assert delivered.log == s.log;
    AnsweringRun(delivered, maxLeases, between, t, delivered.tasks[t], |s.log|);
  }

  // ---- failures ----

  /** What makes a turn fail, and with which code. */
  lemma FailureCodes(s: State, t: TaskId, code: ErrorCode, text: string)
    requires Owning(s, t)
    ensures s.tasks[t].pc.Start? && s.tasks[t].plan.Continuation? ==>
              TakeResume(s, t, Some(code)) == Goto(s, t, Failed(code))
    ensures s.tasks[t].pc.Start? && s.tasks[t].plan.Repriming? ==>
              TakeClear(s, t, Some(code)) == Goto(s, t, Failed(code))
    ensures MayClaim(s, t) ==> TakeClaim(s, t, Some(code)) == Goto(s, t, Failed(code))
    ensures MayClaim(s, t) && s.tasks[t].id in s.pool ==> TakeClaim(s, t, None) == Goto(s, t, Failed(SessionBusy))
    ensures s.tasks[t].pc.Admitting? ==>
              TakeAdmit(s, t, Some(code), text) == Goto(s.(pool := s.pool - {s.tasks[t].id}), t, Failed(code))
    ensures s.tasks[t].pc.Running? && s.tasks[t].id in s.pool && s.pool[s.tasks[t].id].CheckedOut? ==>
              TakeDeliver(s, t, Some(code), text) ==
              Goto(s.(pool := s.pool - {s.tasks[t].id}), t,
                   if s.tasks[t].pc.resumed && code == SessionNotFound then Claiming else Failed(code))
  {
  }

  /** A failed turn on its way to its caller, with the code it failed with. */
  predicate Refusing(task: Task, id: ConversationId, code: ErrorCode) {
    match task
    case Turn(i, _, _, pc) => i == id && (pc == Failed(code) || (pc.Judged? && pc.code == code))
    case Evicting(i, reply) => i == id && reply == Refused(code)
    case Finished(reply) => reply == Refused(code)
    case _ => false
  }

  lemma RefusingOwnStep(s: State, maxLeases: nat, step: Step, t: TaskId, id: ConversationId, code: ErrorCode)
    requires t in s.tasks && Refusing(s.tasks[t], id, code) && !step.Expire? && step.task == t
    ensures var after := Apply(s, maxLeases, step);
            t in after.tasks && Refusing(after.tasks[t], id, code)
  {
  }

  lemma {:induction false} FailureReachesCaller(s: State, maxLeases: nat, steps: seq<Step>, t: TaskId,
                                                id: ConversationId, code: ErrorCode)
    requires t in s.tasks && Refusing(s.tasks[t], id, code)
    ensures var after := Run(s, maxLeases, steps);
            t in after.tasks && Refusing(after.tasks[t], id, code)
    decreases |steps|
  {
    if steps != [] {
      if steps[0].Expire? || steps[0].task != t {
        OthersStay(s, maxLeases, steps[0], t);
      } else {
        RefusingOwnStep(s, maxLeases, steps[0], t, id, code);
      }
      FailureReachesCaller(Apply(s, maxLeases, steps[0]), maxLeases, steps[1..], t, id, code);
    }
  }

  /** A continuation refused as InvalidConfig on a resting cell: the row it was planned
      on is back, no cell has changed and the caller is told InvalidConfig. */
  lemma InvalidContinuationIsUndone(s: State, maxLeases: nat, t: TaskId)
    requires Reachable(s, maxLeases)
    requires OwningAt(s, t, Start) && s.tasks[t].plan.Continuation? && IsLeased(s.pool, s.tasks[t].id)
    ensures var Turn(id, _, plan, _) := s.tasks[t];
            var after := TakeRecover(TakeJudge(TakeResume(s, t, Some(InvalidConfig)), t), t);
            && after.book == s.book.(live := s.book.live[id := plan.held])
            && after.pool == s.pool
            && after.tasks == s.tasks[t := Finished(Refused(InvalidConfig))]
  {
    ReachableInv(s, maxLeases);
    OwnerTurnOk(s, t);
    var Turn(id, _, plan, _) := s.tasks[t];
    var failed := Goto(s, t, Failed(InvalidConfig));
    assert TakeResume(s, t, Some(InvalidConfig)) == failed;
    var judged := Goto(s, t, Judged(InvalidConfig, true));
    assert TakeJudge(failed, t).tasks == judged.tasks;
    assert TakeJudge(failed, t) == judged;
    assert TakeRecover(judged, t).tasks == s.tasks[t := Finished(Refused(InvalidConfig))];
  }

  /** Any other refusal leaves neither row nor reservation, and clears the cell. */
  lemma OtherRefusalClears(s: State, maxLeases: nat, t: TaskId, code: ErrorCode)
    requires Reachable(s, maxLeases) && Owning(s, t) && s.tasks[t].pc == Failed(code)
    requires !s.tasks[t].plan.Continuation? || code != InvalidConfig
    ensures var id := s.tasks[t].id;
            var after := TakeEvict(TakeRecover(TakeJudge(s, t), t), t);
            && id !in after.book.live && id !in after.book.reserved && id !in after.pool
            && after.tasks == s.tasks[t := Finished(Refused(code))]
  {
    ReachableInv(s, maxLeases);
    OwnerTurnOk(s, t);
    var id := s.tasks[t].id;
    var judged := Goto(s, t, Judged(code, false));
    assert TakeJudge(s, t) == judged;
    var recovered := TakeRecover(judged, t);
    assert recovered.tasks == s.tasks[t := Evicting(id, Refused(code))] && recovered.pool == s.pool;
    assert TakeEvict(recovered, t).tasks == s.tasks[t := Finished(Refused(code))];
  }

  /** A request that is told to wait changes no cell and no log. */
  lemma BusyReply(s: State, maxLeases: nat, t: TaskId)
    requires t in s.tasks && s.tasks[t].Snapped?
    requires var Snapped(id, next, poolIds) := s.tasks[t];
             var verdict := PlanBook(s.book, maxLeases, id, next, poolIds, IsLeased(s.pool, id)).1;
             verdict.Busy? || verdict.CapReached?
    ensures var after := TakePlan(s, maxLeases, t);
            && after.tasks == s.tasks[t := Finished(Refused(SessionBusy))]
            && after.pool == s.pool && after.log == s.log
  {
    var Snapped(id, next, poolIds) := s.tasks[t];
    var planned := PlanBook(s.book, maxLeases, id, next, poolIds, IsLeased(s.pool, id));
    assert TakePlan(s, maxLeases, t) == AfterPlan(s, t, planned.0, planned.1);
  }

  /** A reprime clears its own resting cell, and no other, before it claims a new one. */
  lemma ReprimeClears(s: State, maxLeases: nat, t: TaskId)
    requires Reachable(s, maxLeases)
    requires OwningAt(s, t, Start) && s.tasks[t].plan.Repriming?
    ensures TakeClear(s, t, None) == Goto(s.(pool := s.pool - {s.tasks[t].id}), t, Claiming)
  {
    ReachableInv(s, maxLeases);
    OwnerTurnOk(s, t);
    assert ReleaseCell(s.pool, s.tasks[t].id) == s.pool - {s.tasks[t].id};
  }

  // ---- releases ----

  /** A release is refused exactly while a turn is under way, and then changes nothing.
      Otherwise it removes the row and, with it, the resting cell; no other row and no
      other cell changes. */
  lemma ReleaseOutcome(s: State, maxLeases: nat, t: TaskId)
    requires Reachable(s, maxLeases) && t in s.tasks && s.tasks[t].ReleaseAsked?
    ensures var id := s.tasks[t].id;
            var row := TakeRelease(s, t);
            var after := TakeEvict(row, t);
            if id in s.book.reserved || (id in s.book.live && s.book.live[id].inFlight) then
              row == s.(tasks := s.tasks[t := Finished(Refused(SessionBusy))])
            else
              && after.book == s.book.(live := s.book.live - {id})
              && after.pool == s.pool - {id}
              && after.tasks == s.tasks[t := Finished(ReleaseDone)]
              && after.log == s.log
  {
    var id := s.tasks[t].id;
    ReleaseTaken(s, t);
    if !ReleaseRefused(s.book, id) {
      RestsUnlessUnderWay(s, maxLeases, id);
      EvictOutcome(TakeRelease(s, t), t);
      var done: Task := Finished(ReleaseDone);
      assert s.tasks[t := Evicting(id, ReleaseDone)][t := done] == s.tasks[t := done];
    }
  }

  lemma ReleaseTaken(s: State, t: TaskId)
    requires t in s.tasks && s.tasks[t].ReleaseAsked?
    ensures var id := s.tasks[t].id;
            TakeRelease(s, t) ==
            if id in s.book.reserved || (id in s.book.live && s.book.live[id].inFlight)
            then s.(tasks := s.tasks[t := Finished(Refused(SessionBusy))])
            else s.(book := s.book.(live := s.book.live - {id}), tasks := s.tasks[t := Evicting(id, ReleaseDone)])
  {
  }

  lemma RestsUnlessUnderWay(s: State, maxLeases: nat, id: ConversationId)
    requires Reachable(s, maxLeases) && !ReleaseRefused(s.book, id)
    ensures id in s.pool ==> s.pool[id].Leased?
  {
    ReachableInv(s, maxLeases);
    assert IdOk(s, id);
  }

  /** Whenever a later step of another turn has taken the cell, eviction leaves it
      alone and a release says so; a resting cell is cleared, and only that one. */
  lemma EvictOutcome(s: State, t: TaskId)
    requires t in s.tasks && s.tasks[t].Evicting?
    ensures var Evicting(id, reply) := s.tasks[t];
            var after := TakeEvict(s, t);
            var taken := id in s.pool && !s.pool[id].Leased?;
            && after.book == s.book && after.log == s.log
            && after.pool == (if taken then s.pool else s.pool - {id})
            && after.tasks ==
               s.tasks[t := Finished(if taken && reply == ReleaseDone then Refused(SessionBusy) else reply)]
  {
  }

  /** A sweep leaves exactly the rows that are in flight or named by its ids. */
  lemma SweepOutcome(s: State, t: TaskId)
    requires t in s.tasks && s.tasks[t].SweepSnapped?
    ensures var after := TakeSweep(s, t);
            && after.book.live ==
               (map x | x in s.book.live && (s.book.live[x].inFlight || x in s.tasks[t].poolIds) :: s.book.live[x])
            && after.book.reserved == s.book.reserved && after.pool == s.pool
            && after.tasks == s.tasks[t := Finished(SweepDone)]
  {
  }

  // ---- whole courses of steps ----

  lemma RunTwo(s: State, maxLeases: nat, a: Step, b: Step)
    ensures Run(s, maxLeases, [a, b]) == Apply(Apply(s, maxLeases, a), maxLeases, b)
  {
    assert [a, b][1..] == [b];
    RunOne(Apply(s, maxLeases, a), maxLeases, b);
  }

  lemma RunOne(s: State, maxLeases: nat, a: Step)
    ensures Run(s, maxLeases, [a]) == Apply(s, maxLeases, a)
  {
    assert [a][1..] == [] && [a][0] == a;
  }

  lemma RunThree(s: State, maxLeases: nat, a: Step, b: Step, c: Step)
    ensures Run(s, maxLeases, [a, b, c]) == Apply(Apply(Apply(s, maxLeases, a), maxLeases, b), maxLeases, c)
  {
    assert [a, b, c][1..] == [b, c];
    RunTwo(Apply(s, maxLeases, a), maxLeases, b, c);
  }

  /** A new request is planned on the ids and the book it finds. */
  lemma RequestIsPlanned(s: State, maxLeases: nat, t: TaskId, id: ConversationId, next: Fingerprint)
    requires t !in s.tasks
    ensures Run(s, maxLeases, [Ask(t, id, next), Snapshot(t), PlanTurn(t)])
            == TakePlan(At(s, t, Snapped(id, next, PoolIds(s.pool))), maxLeases, t)
  {
    RunThree(s, maxLeases, Ask(t, id, next), Snapshot(t), PlanTurn(t));
    assert TakeSnapshot(At(s, t, Asked(id, next)), t) == At(s, t, Snapped(id, next, PoolIds(s.pool)));
  }

  /** A running turn that is delivered and committed answers its caller. */
  lemma TurnIsAnswered(s: State, maxLeases: nat, t: TaskId, result: string)
    requires Reachable(s, maxLeases) && Owning(s, t) && s.tasks[t].pc.Running?
    ensures var Turn(id, next, plan, pc) := s.tasks[t];
            var after := Run(s, maxLeases, [Deliver(t, None, result), CommitTurn(t)]);
            && t in after.tasks && after.tasks[t].Finished? && after.tasks[t].reply.Answer?
            && after.tasks[t].reply.result == result
            && id in after.book.live && after.book.live[id].fingerprint == next
            && after.book.live[id].lastResult == result && !after.book.live[id].inFlight
  {
    RunTwo(s, maxLeases, Deliver(t, None, result), CommitTurn(t));
    DeliveredAnswer(s, maxLeases, t, result);
    CommitReply(TakeDeliver(s, t, None, result), t);
  }

  /** A failed turn that is judged, recovered and evicted refuses its caller. */
  lemma TurnIsRefused(s: State, maxLeases: nat, t: TaskId, code: ErrorCode)
    requires Reachable(s, maxLeases) && Owning(s, t) && s.tasks[t].pc == Failed(code)
    requires !s.tasks[t].plan.Continuation? || code != InvalidConfig
    ensures var after := Run(s, maxLeases, [Judge(t), Recover(t), Evict(t)]);
            var id := s.tasks[t].id;
            && t in after.tasks && after.tasks[t] == Finished(Refused(code))
            && id !in after.book.live && id !in after.book.reserved && id !in after.pool
  {
    RunThree(s, maxLeases, Judge(t), Recover(t), Evict(t));
    OtherRefusalClears(s, maxLeases, t, code);
  }

  /** A new release of an idle conversation leaves neither row nor cell. */
  lemma IdleIsReleased(s: State, maxLeases: nat, t: TaskId, id: ConversationId)
    requires Reachable(s, maxLeases) && t !in s.tasks && !ReleaseRefused(s.book, id)
    ensures var after := Run(s, maxLeases, [AskRelease(t, id), ReleaseRow(t), Evict(t)]);
            && after.book == s.book.(live := s.book.live - {id}) && after.pool == s.pool - {id}
            && after.tasks == s.tasks[t := Finished(ReleaseDone)]
  {
    RunThree(s, maxLeases, AskRelease(t, id), ReleaseRow(t), Evict(t));
    ReachableStep(s, maxLeases, AskRelease(t, id));
    var asked := At(s, t, ReleaseAsked(id));
    ReleaseOutcome(asked, maxLeases, t);
  }

  /** A new sweep leaves the rows that are in flight or whose cell the pool names. */
  lemma SweepLeavesLeased(s: State, maxLeases: nat, t: TaskId)
    requires t !in s.tasks
    ensures var after := Run(s, maxLeases, [AskSweep(t), Snapshot(t), Sweep(t)]);
            && after.pool == s.pool && after.book.reserved == s.book.reserved
            && after.book.live ==
               (map x | x in s.book.live && (s.book.live[x].inFlight || x in PoolIds(s.pool)) :: s.book.live[x])
  {
    RunThree(s, maxLeases, AskSweep(t), Snapshot(t), Sweep(t));
    var snapped := At(s, t, SweepSnapped(PoolIds(s.pool)));
    assert TakeSnapshot(At(s, t, SweepAsked), t) == snapped;
    SweepOutcome(snapped, t);
  }

  /** The ids a snapshot names: a cell in use or at rest, and no pending claim. */
  lemma SnapshotNames(pool: Pool, id: ConversationId)
    ensures id in PoolIds(pool) <==> id in pool && (pool[id].CheckedOut? || pool[id].Leased?)
  {
  }

  /** The pool's own expiry takes a resting cell at any time, and nothing else. */
  lemma ExpiryTakesRestingCell(s: State, maxLeases: nat, id: ConversationId)
    ensures Apply(s, maxLeases, Expire(id)) ==
            if id in s.pool && s.pool[id].Leased? then s.(pool := s.pool - {id}) else s
  {
  }
}
