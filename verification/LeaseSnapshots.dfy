/** What a stale snapshot can cost: over every run between the snapshot of the pool's
    ids and its use under the lock, which rows are lost and how they came about. */
module LeaseSnapshots {
  import opened Common
  import opened LeasePool
  import opened LeaseBook
  import opened LeaseProtocol
  import opened LeaseInvariant
  import opened LeaseTheorems

  // ---- a task keeps its snapshot until it uses it ----

  predicate IsSnapshot(task: Task) {
    task.Snapped? || task.SweepSnapped?
  }

  /** Past any snapshot, for good. */
  predicate Past(task: Task) {
    !IsSnapshot(task) && !task.Asked? && !task.SweepAsked?
  }

  ghost predicate Keeps(s: State, t: TaskId, snapshot: Task) {
    t in s.tasks && (s.tasks[t] == snapshot || Past(s.tasks[t]))
  }

  lemma KeepsPlan(s: State, maxLeases: nat, u: TaskId, t: TaskId, snapshot: Task)
    requires Keeps(s, t, snapshot) && IsSnapshot(snapshot)
    ensures Keeps(TakePlan(s, maxLeases, u), t, snapshot)
  {
    if u in s.tasks && s.tasks[u].Snapped? {
      var Snapped(id, next, poolIds) := s.tasks[u];
      var planned := PlanBook(s.book, maxLeases, id, next, poolIds, IsLeased(s.pool, id));
      AfterPlanKeeps(s, u, planned.0, planned.1, t, snapshot);
    }
  }

  lemma AfterPlanKeeps(s: State, u: TaskId, book: Book, verdict: Verdict, t: TaskId, snapshot: Task)
    requires u in s.tasks && s.tasks[u].Snapped?
    requires verdict.GoContinue? ==> s.tasks[u].id in s.book.live
    requires Keeps(s, t, snapshot)
    ensures Keeps(AfterPlan(s, u, book, verdict), t, snapshot)
  {
  }

  lemma KeepsBookSteps(s: State, u: TaskId, t: TaskId, snapshot: Task)
    requires Keeps(s, t, snapshot) && IsSnapshot(snapshot)
    ensures Keeps(TakeSweep(s, u), t, snapshot) && Keeps(TakeRelease(s, u), t, snapshot)
    ensures Keeps(TakeCommit(s, u), t, snapshot) && Keeps(TakeRecover(s, u), t, snapshot)
    ensures Keeps(TakeEvict(s, u), t, snapshot) && Keeps(TakeJudge(s, u), t, snapshot)
    ensures Keeps(TakeSnapshot(s, u), t, snapshot)
  {
  }

  lemma KeepsStartSteps(s: State, u: TaskId, code: Option<ErrorCode>, t: TaskId, snapshot: Task)
    requires Keeps(s, t, snapshot) && IsSnapshot(snapshot)
    ensures Keeps(TakeClear(s, u, code), t, snapshot) && Keeps(TakeClaim(s, u, code), t, snapshot)
    ensures Keeps(TakeResume(s, u, code), t, snapshot)
  {
  }

  lemma KeepsCellSteps(s: State, u: TaskId, code: Option<ErrorCode>, text: string, t: TaskId, snapshot: Task)
    requires Keeps(s, t, snapshot) && IsSnapshot(snapshot)
    ensures Keeps(TakeAdmit(s, u, code, text), t, snapshot) && Keeps(TakeDeliver(s, u, code, text), t, snapshot)
  {
  }

  lemma KeepsPoolStep(s: State, maxLeases: nat, step: Step, t: TaskId, snapshot: Task)
    requires Keeps(s, t, snapshot) && IsSnapshot(snapshot) && WithPool(step)
    ensures Keeps(Apply(s, maxLeases, step), t, snapshot)
  {
    match step
    case ClearForReprime(u, refusal) => KeepsStartSteps(s, u, refusal, t, snapshot);
    case ResumeCell(u, refusal) => KeepsStartSteps(s, u, refusal, t, snapshot);
    case ClaimCell(u, refusal) => KeepsStartSteps(s, u, refusal, t, snapshot);
    case Admit(u, failure, token) => KeepsCellSteps(s, u, failure, token, t, snapshot);
    case Deliver(u, failure, result) => KeepsCellSteps(s, u, failure, result, t, snapshot);
  }

  lemma KeepsOtherStep(s: State, maxLeases: nat, step: Step, t: TaskId, snapshot: Task)
    requires Keeps(s, t, snapshot) && IsSnapshot(snapshot) && !WithPool(step)
    ensures Keeps(Apply(s, maxLeases, step), t, snapshot)
  {
    match step
    case Ask(_, _, _) =>
    case AskRelease(_, _) =>
    case AskSweep(_) =>
    case Expire(_) =>
    case PlanTurn(u) => KeepsPlan(s, maxLeases, u, t, snapshot);
    case Snapshot(u) => KeepsBookSteps(s, u, t, snapshot);
    case Sweep(u) => KeepsBookSteps(s, u, t, snapshot);
    case ReleaseRow(u) => KeepsBookSteps(s, u, t, snapshot);
    case Evict(u) => KeepsBookSteps(s, u, t, snapshot);
    case CommitTurn(u) => KeepsBookSteps(s, u, t, snapshot);
    case Judge(u) => KeepsBookSteps(s, u, t, snapshot);
    case Recover(u) => KeepsBookSteps(s, u, t, snapshot);
  }

  lemma KeepsStep(s: State, maxLeases: nat, step: Step, t: TaskId, snapshot: Task)
    requires Keeps(s, t, snapshot) && IsSnapshot(snapshot)
    ensures Keeps(Apply(s, maxLeases, step), t, snapshot)
  {
    if WithPool(step) {
      KeepsPoolStep(s, maxLeases, step, t, snapshot);
    } else {
      KeepsOtherStep(s, maxLeases, step, t, snapshot);
    }
  }

  // ---- how a cell comes to rest behind a snapshot ----

  ghost predicate CommittedSince(log: seq<Event>, id: ConversationId, n: nat) {
    exists k :: n <= k < |log| && log[k].Committed? && log[k].id == id
  }

  /** A turn of `id` is in its cell, or has its answer and is about to commit. */
  ghost predicate AtWork(s: State, t: TaskId, id: ConversationId) {
    Owner(s, t, id) && (s.tasks[t].pc.Running? || s.tasks[t].pc.Answered?)
  }

  /** A cell of `id` that was not there when the log had `n` entries is still absent,
      or is at work, or has committed since. */
  ghost predicate Since(s: State, id: ConversationId, n: nat) {
    n <= |s.log| &&
    (CommittedSince(s.log, id, n) || id !in PoolIds(s.pool) || exists t :: AtWork(s, t, id))
  }

  /** Only task `t` moved, and it did not let a cell of `id` in behind the log. */
  ghost predicate Guarded(s: State, s': State, t: TaskId, id: ConversationId) {
    && s.log <= s'.log
    && (forall u :: u != t && u in s.tasks ==> u in s'.tasks && s'.tasks[u] == s.tasks[u])
    && (id in PoolIds(s'.pool) ==> id in PoolIds(s.pool) || AtWork(s', t, id))
    && (AtWork(s, t, id) ==>
          AtWork(s', t, id) || id !in PoolIds(s'.pool) || CommittedSince(s'.log, id, |s.log|))
  }

  lemma SinceGuarded(s: State, s': State, t: TaskId, id: ConversationId, n: nat)
    requires Since(s, id, n) && Guarded(s, s', t, id)
    ensures Since(s', id, n)
  {
    if CommittedSince(s.log, id, n) {
      var k :| n <= k < |s.log| && s.log[k].Committed? && s.log[k].id == id;
      assert s'.log[k] == s.log[k];
    } else if id in PoolIds(s.pool) {
      var u :| AtWork(s, u, id);
      assert u != t ==> AtWork(s', u, id);
    }
  }

  lemma PlanGuarded(s: State, maxLeases: nat, t: TaskId, id: ConversationId)
    ensures Guarded(s, TakePlan(s, maxLeases, t), t, id)
  {
    if t in s.tasks && s.tasks[t].Snapped? {
      var Snapped(asked, next, poolIds) := s.tasks[t];
      var planned := PlanBook(s.book, maxLeases, asked, next, poolIds, IsLeased(s.pool, asked));
      AfterPlanGuarded(s, t, planned.0, planned.1, id);
    }
  }

  lemma AfterPlanGuarded(s: State, t: TaskId, book: Book, verdict: Verdict, id: ConversationId)
    requires t in s.tasks && s.tasks[t].Snapped?
    requires verdict.GoContinue? ==> s.tasks[t].id in s.book.live
    ensures Guarded(s, AfterPlan(s, t, book, verdict), t, id)
  {
  }

  lemma BookStepsGuarded(s: State, t: TaskId, id: ConversationId)
    ensures Guarded(s, TakeSweep(s, t), t, id) && Guarded(s, TakeRelease(s, t), t, id)
    ensures Guarded(s, TakeRecover(s, t), t, id) && Guarded(s, TakeJudge(s, t), t, id)
    ensures Guarded(s, TakeSnapshot(s, t), t, id) && Guarded(s, TakeEvict(s, t), t, id)
  {
  }

  lemma CommitGuarded(s: State, t: TaskId, id: ConversationId)
    ensures Guarded(s, TakeCommit(s, t), t, id)
  {
    if Owning(s, t) && s.tasks[t].pc.Answered? {
      assert TakeCommit(s, t).log[|s.log|] == Committed(s.tasks[t].id, s.tasks[t].next, s.tasks[t].pc.result);
    }
  }

  lemma StartStepsGuarded(s: State, t: TaskId, code: Option<ErrorCode>, id: ConversationId)
    ensures Guarded(s, TakeClear(s, t, code), t, id) && Guarded(s, TakeClaim(s, t, code), t, id)
    ensures Guarded(s, TakeResume(s, t, code), t, id)
  {
  }

  lemma CellStepsGuarded(s: State, t: TaskId, code: Option<ErrorCode>, text: string, id: ConversationId)
    ensures Guarded(s, TakeAdmit(s, t, code, text), t, id) && Guarded(s, TakeDeliver(s, t, code, text), t, id)
  {
  }

  /** The task a step belongs to; the pool's own steps belong to nobody. */
  function Mover(step: Step): TaskId {
    if step.Expire? then 0 else step.task
  }

  lemma PoolStepGuarded(s: State, maxLeases: nat, step: Step, id: ConversationId)
    requires WithPool(step)
    ensures Guarded(s, Apply(s, maxLeases, step), Mover(step), id)
  {
    match step
    case ClearForReprime(t, refusal) => StartStepsGuarded(s, t, refusal, id);
    case ResumeCell(t, refusal) => StartStepsGuarded(s, t, refusal, id);
    case ClaimCell(t, refusal) => StartStepsGuarded(s, t, refusal, id);
    case Admit(t, failure, token) => CellStepsGuarded(s, t, failure, token, id);
    case Deliver(t, failure, result) => CellStepsGuarded(s, t, failure, result, id);
  }

  lemma OtherStepGuarded(s: State, maxLeases: nat, step: Step, id: ConversationId)
    requires !WithPool(step)
    ensures Guarded(s, Apply(s, maxLeases, step), Mover(step), id)
  {
    match step
    case Ask(_, _, _) =>
    case AskRelease(_, _) =>
    case AskSweep(_) =>
    case Expire(_) =>
    case PlanTurn(t) => PlanGuarded(s, maxLeases, t, id);
    case Snapshot(t) => BookStepsGuarded(s, t, id);
    case Sweep(t) => BookStepsGuarded(s, t, id);
    case ReleaseRow(t) => BookStepsGuarded(s, t, id);
    case Evict(t) => BookStepsGuarded(s, t, id);
    case Judge(t) => BookStepsGuarded(s, t, id);
    case Recover(t) => BookStepsGuarded(s, t, id);
    case CommitTurn(t) => CommitGuarded(s, t, id);
  }

  lemma StepGuarded(s: State, maxLeases: nat, step: Step, id: ConversationId)
    ensures Guarded(s, Apply(s, maxLeases, step), Mover(step), id)
  {
    if WithPool(step) {
      PoolStepGuarded(s, maxLeases, step, id);
    } else {
      OtherStepGuarded(s, maxLeases, step, id);
    }
  }

  lemma {:induction false} RunSince(s: State, maxLeases: nat, steps: seq<Step>, t: TaskId, snapshot: Task,
                                    id: ConversationId, n: nat)
    requires Keeps(s, t, snapshot) && IsSnapshot(snapshot)
    ensures Keeps(Run(s, maxLeases, steps), t, snapshot)
    ensures Since(s, id, n) ==> Since(Run(s, maxLeases, steps), id, n)
    decreases |steps|
  {
    if steps != [] {
      var next := Apply(s, maxLeases, steps[0]);
      KeepsStep(s, maxLeases, steps[0], t, snapshot);
      StepGuarded(s, maxLeases, steps[0], id);
      if Since(s, id, n) {
        SinceGuarded(s, next, Mover(steps[0]), id, n);
      }
      RunSince(next, maxLeases, steps[1..], t, snapshot, id, n);
    }
  }

  // ---- which rows are lost ----

  /** An idle row survives planning exactly when the ids name it, provided its own
      replay finds the cell. */
  lemma PlanKeepsRowIff(book: Book, maxLeases: nat, asked: ConversationId, next: Fingerprint,
                        poolIds: set<ConversationId>, leased: bool, id: ConversationId)
    requires id in book.live && !book.live[id].inFlight && (asked == id ==> leased)
    ensures id in PlanBook(book, maxLeases, asked, next, poolIds, leased).0.live <==> id in poolIds
  {
    PlanRowKeeps(DropOrphans(book, poolIds), maxLeases, asked, next, leased, id);
  }

  lemma PlanRowKeeps(book: Book, maxLeases: nat, asked: ConversationId, next: Fingerprint,
                     leased: bool, id: ConversationId)
    requires asked == id ==> leased
    ensures id in PlanRow(book, maxLeases, asked, next, leased).0.live <==> id in book.live
  {
  }

  lemma AfterPlanBook(s: State, t: TaskId, book: Book, verdict: Verdict)
    requires t in s.tasks && s.tasks[t].Snapped?
    requires verdict.GoContinue? ==> s.tasks[t].id in s.book.live
    ensures AfterPlan(s, t, book, verdict).book == book
  {
  }

  lemma PlanBookIsTaken(s: State, maxLeases: nat, t: TaskId)
    requires t in s.tasks && s.tasks[t].Snapped?
    ensures var Snapped(asked, next, poolIds) := s.tasks[t];
            TakePlan(s, maxLeases, t).book ==
            PlanBook(s.book, maxLeases, asked, next, poolIds, IsLeased(s.pool, asked)).0
  {
    var Snapped(asked, next, poolIds) := s.tasks[t];
    var planned := PlanBook(s.book, maxLeases, asked, next, poolIds, IsLeased(s.pool, asked));
    AfterPlanBook(s, t, planned.0, planned.1);
  }

  /** A resting row that no cell stood for at the snapshot was committed behind it. */
  lemma RestingWasCommitted(s: State, maxLeases: nat, id: ConversationId, n: nat)
    requires Inv(s, maxLeases) && Since(s, id, n)
    requires id in s.book.live && !s.book.live[id].inFlight && IsLeased(s.pool, id)
    ensures CommittedSince(s.log, id, n)
  {
    assert IdOk(s, id);
    assert id !in s.book.reserved;
    assert NoOwner(s, id);
  }

  /** From the snapshot to its use, whatever ran in between. */
  lemma SnapshotUsed(s0: State, maxLeases: nat, t: TaskId, between: seq<Step>, id: ConversationId)
    requires Reachable(s0, maxLeases)
    requires t in s0.tasks && (s0.tasks[t].Asked? || s0.tasks[t].SweepAsked?)
    ensures var s1 := Run(TakeSnapshot(s0, t), maxLeases, between);
            && Inv(s1, maxLeases)
            && t in s1.tasks && (IsSnapshot(s1.tasks[t]) ==> s1.tasks[t].poolIds == PoolIds(s0.pool))
            && (id !in PoolIds(s0.pool) ==> Since(s1, id, |s0.log|))
  {
    var snapped := TakeSnapshot(s0, t);
    ReachableInv(s0, maxLeases);
    KeepSnapshot(s0, maxLeases, t);
    RunKeeps(snapped, maxLeases, between);
    RunSince(snapped, maxLeases, between, t, snapped.tasks[t], id, |s0.log|);
  }

  /** A request snapshots in `s0` and plans in `s1`. Planning drops the row of a resting
      cell exactly when the cell was not there at the snapshot, and then the row was
      committed in between: only rows committed behind the snapshot are lost. */
  lemma PlanLosesRowIffMissed(s0: State, maxLeases: nat, t: TaskId, between: seq<Step>, id: ConversationId)
    requires Reachable(s0, maxLeases) && t in s0.tasks && s0.tasks[t].Asked?
    requires var s1 := Run(TakeSnapshot(s0, t), maxLeases, between);
             && t in s1.tasks && s1.tasks[t].Snapped?
             && id in s1.book.live && !s1.book.live[id].inFlight && IsLeased(s1.pool, id)
    ensures var s1 := Run(TakeSnapshot(s0, t), maxLeases, between);
            && (id !in TakePlan(s1, maxLeases, t).book.live <==> id !in PoolIds(s0.pool))
            && (id !in PoolIds(s0.pool) ==> CommittedSince(s1.log, id, |s0.log|))
  {
    var s1 := Run(TakeSnapshot(s0, t), maxLeases, between);
    SnapshotUsed(s0, maxLeases, t, between, id);
    var Snapped(asked, next, poolIds) := s1.tasks[t];
    PlanBookIsTaken(s1, maxLeases, t);
    PlanKeepsRowIff(s1.book, maxLeases, asked, next, poolIds, IsLeased(s1.pool, asked), id);
    if id !in PoolIds(s0.pool) {
      RestingWasCommitted(s1, maxLeases, id, |s0.log|);
    }
  }

  /** The same for a sweep. */
  lemma SweepLosesRowIffMissed(s0: State, maxLeases: nat, t: TaskId, between: seq<Step>, id: ConversationId)
    requires Reachable(s0, maxLeases) && t in s0.tasks && s0.tasks[t].SweepAsked?
    requires var s1 := Run(TakeSnapshot(s0, t), maxLeases, between);
             && t in s1.tasks && s1.tasks[t].SweepSnapped?
             && id in s1.book.live && !s1.book.live[id].inFlight && IsLeased(s1.pool, id)
    ensures var s1 := Run(TakeSnapshot(s0, t), maxLeases, between);
            && (id !in TakeSweep(s1, t).book.live <==> id !in PoolIds(s0.pool))
            && (id !in PoolIds(s0.pool) ==> CommittedSince(s1.log, id, |s0.log|))
  {
    SnapshotUsed(s0, maxLeases, t, between, id);
    if id !in PoolIds(s0.pool) {
      RestingWasCommitted(Run(TakeSnapshot(s0, t), maxLeases, between), maxLeases, id, |s0.log|);
    }
  }
}
