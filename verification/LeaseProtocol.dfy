/** Every interleaving of requests, releases, sweeps and pool expiry.
    A request snapshots the pool ids, plans under the book's lock, talks to the
    pool outside it and commits or recovers under it again; each of those is one
    step. A step that is not enabled leaves the state alone, so every sequence
    of steps is a run. */
module LeaseProtocol {
  import opened Common
  import opened LeasePool
  import opened LeaseBook

  datatype LeaseKind = Primed | Continued | Reprimed | WasReplayed

  datatype Reply =
    | Answer(kind: LeaseKind, cell: string, result: string)
    | Refused(code: ErrorCode)
    | ReleaseDone
    | SweepDone

  /** `held` and `seen` remember the row and the cell a continuation was planned
      on; no step reads them. */
  datatype Plan =
    | Prime
    | Continuation(from: nat, held: Lease, seen: Option<Cell>)
    | Repriming

  /** Where a planned turn is. `Judged` is between the pool-id snapshot of
      `recover_failed_turn` and its lock. */
  datatype TurnPc =
    | Start
    | Claiming
    | Admitting
    | Running(resumed: bool)
    | Answered(kind: LeaseKind, result: string, cell: string)
    | Failed(code: ErrorCode)
    | Judged(code: ErrorCode, keep: bool)

  datatype Task =
    | Asked(id: ConversationId, next: Fingerprint)
    | Snapped(id: ConversationId, next: Fingerprint, poolIds: set<ConversationId>)
    | Turn(id: ConversationId, next: Fingerprint, plan: Plan, pc: TurnPc)
    | Evicting(id: ConversationId, reply: Reply)
    | ReleaseAsked(id: ConversationId)
    | SweepAsked
    | SweepSnapped(poolIds: set<ConversationId>)
    | Finished(reply: Reply)

  datatype Event =
    | Committed(id: ConversationId, fingerprint: Fingerprint, result: string)
    | ReplayServed(id: ConversationId, fingerprint: Fingerprint, result: string)

  datatype State = State(book: Book, pool: Pool, tasks: map<TaskId, Task>, log: seq<Event>)

  datatype Step =
    | Ask(task: TaskId, id: ConversationId, next: Fingerprint)
    | AskRelease(task: TaskId, id: ConversationId)
    | AskSweep(task: TaskId)
    | Snapshot(task: TaskId)
    | PlanTurn(task: TaskId)
    | Sweep(task: TaskId)
    | ReleaseRow(task: TaskId)
    | Evict(task: TaskId)
    | ClearForReprime(task: TaskId, refusal: Option<ErrorCode>)
    | ResumeCell(task: TaskId, refusal: Option<ErrorCode>)
    | ClaimCell(task: TaskId, refusal: Option<ErrorCode>)
    | Admit(task: TaskId, failure: Option<ErrorCode>, token: string)
    | Deliver(task: TaskId, failure: Option<ErrorCode>, result: string)
    | CommitTurn(task: TaskId)
    | Judge(task: TaskId)
    | Recover(task: TaskId)
    | Expire(id: ConversationId)

  function Init(): State {
    State(Book(map[], {}), map[], map[], [])
  }

  function At(s: State, task: TaskId, now: Task): State {
    s.(tasks := s.tasks[task := now])
  }

  predicate Owning(s: State, t: TaskId) {
    t in s.tasks && s.tasks[t].Turn?
  }

  predicate OwningAt(s: State, t: TaskId, pc: TurnPc) {
    Owning(s, t) && s.tasks[t].pc == pc
  }

  function Goto(s: State, t: TaskId, pc: TurnPc): State
    requires Owning(s, t)
  {
    At(s, t, s.tasks[t].(pc := pc))
  }

  // ---- one function per step ----

  function TakeSnapshot(s: State, t: TaskId): State {
    if t !in s.tasks then s
    else match s.tasks[t]
         case Asked(id, next) => At(s, t, Snapped(id, next, PoolIds(s.pool)))
         case SweepAsked => At(s, t, SweepSnapped(PoolIds(s.pool)))
         case _ => s
  }

  function SeenCell(pool: Pool, id: ConversationId): Option<Cell> {
    if id in pool then Some(pool[id]) else None
  }

  /** Where a task goes once the lock has told it what to do. */
  function AfterPlan(s: State, t: TaskId, book: Book, verdict: Verdict): State
    requires t in s.tasks && s.tasks[t].Snapped?
    requires verdict.GoContinue? ==> s.tasks[t].id in s.book.live
  {
    var Snapped(id, next, _) := s.tasks[t];
    var after := s.(book := book);
    match verdict
    case Replayed(cell, result) =>
      At(after, t, Finished(Answer(WasReplayed, cell, result)))
      .(log := s.log + [ReplayServed(id, next, result)])
    case GoContinue(from) =>
      At(after, t, Turn(id, next, Continuation(from, s.book.live[id], SeenCell(s.pool, id)), Start))
    case GoReprime => At(after, t, Turn(id, next, Repriming, Start))
    case GoPrime => At(after, t, Turn(id, next, Prime, Start))
    case Busy => At(after, t, Finished(Refused(SessionBusy)))
    case CapReached => At(after, t, Finished(Refused(SessionBusy)))
  }

  function TakePlan(s: State, maxLeases: nat, t: TaskId): State {
    if t !in s.tasks || !s.tasks[t].Snapped? then s
    else
      var Snapped(id, next, poolIds) := s.tasks[t];
      var planned := PlanBook(s.book, maxLeases, id, next, poolIds, IsLeased(s.pool, id));
      AfterPlan(s, t, planned.0, planned.1)
  }

  function TakeSweep(s: State, t: TaskId): State {
    if t !in s.tasks || !s.tasks[t].SweepSnapped? then s
    else At(s.(book := DropOrphans(s.book, s.tasks[t].poolIds)), t, Finished(SweepDone))
  }

  function TakeRelease(s: State, t: TaskId): State {
    if t !in s.tasks || !s.tasks[t].ReleaseAsked? then s
    else
      var id := s.tasks[t].id;
      if ReleaseRefused(s.book, id) then At(s, t, Finished(Refused(SessionBusy)))
      else At(s.(book := ReleaseBook(s.book, id)), t, Evicting(id, ReleaseDone))
  }

  function TakeEvict(s: State, t: TaskId): State {
    if t !in s.tasks || !s.tasks[t].Evicting? then s
    else
      var Evicting(id, reply) := s.tasks[t];
      var after := if reply.ReleaseDone? && id in s.pool && !s.pool[id].Leased?
                   then Refused(SessionBusy) else reply;
      At(s.(pool := ReleaseCell(s.pool, id)), t, Finished(after))
  }

  /** `refusal` is what `validate_typed_prompt` says about the prompt to be typed. */
  function TakeClear(s: State, t: TaskId, refusal: Option<ErrorCode>): State {
    if !OwningAt(s, t, Start) || !s.tasks[t].plan.Repriming? then s
    else if refusal.Some? then Goto(s, t, Failed(refusal.value))
    else Goto(s.(pool := ReleaseCell(s.pool, s.tasks[t].id)), t, Claiming)
  }

  function TakeResume(s: State, t: TaskId, refusal: Option<ErrorCode>): State {
    if !OwningAt(s, t, Start) || !s.tasks[t].plan.Continuation? then s
    else
      var Turn(id, next, plan, _) := s.tasks[t];
      if refusal.Some? then Goto(s, t, Failed(refusal.value))
      else if plan.from >= |next.messages| then Goto(s, t, Failed(InvalidConfig))
      else if id !in s.pool then Goto(s, t, Claiming)
      else match s.pool[id]
           case Leased(cls, transcript, token) =>
             if cls != next.cls then Goto(s, t, Failed(InvalidConfig))
             else
               var cell := CheckedOut(t, cls, transcript, token, Suffix(next.messages[plan.from..]));
               Goto(s.(pool := s.pool[id := cell]), t, Running(true))
           case _ => Goto(s, t, Failed(SessionBusy))
  }

  predicate MayClaim(s: State, t: TaskId) {
    Owning(s, t) && (s.tasks[t].pc.Claiming? || (s.tasks[t].pc.Start? && s.tasks[t].plan.Prime?))
  }

  function TakeClaim(s: State, t: TaskId, refusal: Option<ErrorCode>): State {
    if !MayClaim(s, t) then s
    else
      var id := s.tasks[t].id;
      if refusal.Some? then Goto(s, t, Failed(refusal.value))
      else if id in s.pool then Goto(s, t, Failed(SessionBusy))
      else Goto(s.(pool := s.pool[id := Pending(t)]), t, Admitting)
  }

  /** Admission, minting and binding inside `claim_new_lease`. */
  function TakeAdmit(s: State, t: TaskId, failure: Option<ErrorCode>, token: string): State {
    if !OwningAt(s, t, Admitting) then s
    else
      var Turn(id, next, _, _) := s.tasks[t];
      if failure.Some? then Goto(s.(pool := s.pool - {id}), t, Failed(failure.value))
      else
        var cell := CheckedOut(t, next.cls, [], token, Primer(next.systemTools, next.messages));
        Goto(s.(pool := s.pool[id := cell]), t, Running(false))
  }

  function KindOf(plan: Plan, resumed: bool): LeaseKind {
    if plan.Prime? then Primed else if resumed then Continued else Reprimed
  }

  /** The turn itself: the prompt is typed and answered, or the cell is destroyed.
      A resumed turn that fails as SessionNotFound falls back to the primer. */
  function TakeDeliver(s: State, t: TaskId, failure: Option<ErrorCode>, result: string): State {
    if !Owning(s, t) || !s.tasks[t].pc.Running? then s
    else
      var Turn(id, _, plan, pc) := s.tasks[t];
      if id !in s.pool || !s.pool[id].CheckedOut? then s
      else
        var cell := s.pool[id];
        if failure.Some? then
          var gone := s.(pool := s.pool - {id});
          if pc.resumed && failure.value == SessionNotFound then Goto(gone, t, Claiming)
          else Goto(gone, t, Failed(failure.value))
        else
          var rest := Leased(cell.cls, cell.transcript + [cell.prompt], cell.token);
          Goto(s.(pool := s.pool[id := rest]), t, Answered(KindOf(plan, pc.resumed), result, cell.token))
  }

  function TakeCommit(s: State, t: TaskId): State {
    if !Owning(s, t) || !s.tasks[t].pc.Answered? then s
    else
      var Turn(id, next, _, Answered(kind, result, cell)) := s.tasks[t];
      At(s.(book := CommitBook(s.book, id, next, result, cell)), t, Finished(Answer(kind, cell, result)))
      .(log := s.log + [Committed(id, next, result)])
  }

  function TakeJudge(s: State, t: TaskId): State {
    if !Owning(s, t) || !s.tasks[t].pc.Failed? then s
    else
      var Turn(id, _, plan, Failed(code)) := s.tasks[t];
      Goto(s, t, Judged(code, plan.Continuation? && code == InvalidConfig && id in PoolIds(s.pool)))
  }

  function TakeRecover(s: State, t: TaskId): State {
    if !Owning(s, t) || !s.tasks[t].pc.Judged? then s
    else
      var Turn(id, _, _, Judged(code, keep)) := s.tasks[t];
      var after := s.(book := RecoverBook(s.book, id, keep));
      At(after, t, if keep then Finished(Refused(code)) else Evicting(id, Refused(code)))
  }

  function Apply(s: State, maxLeases: nat, step: Step): State {
    match step
    case Ask(t, id, next) => if t in s.tasks then s else At(s, t, Asked(id, next))
    case AskRelease(t, id) => if t in s.tasks then s else At(s, t, ReleaseAsked(id))
    case AskSweep(t) => if t in s.tasks then s else At(s, t, SweepAsked)
    case Snapshot(t) => TakeSnapshot(s, t)
    case PlanTurn(t) => TakePlan(s, maxLeases, t)
    case Sweep(t) => TakeSweep(s, t)
    case ReleaseRow(t) => TakeRelease(s, t)
    case Evict(t) => TakeEvict(s, t)
    case ClearForReprime(t, refusal) => TakeClear(s, t, refusal)
    case ResumeCell(t, refusal) => TakeResume(s, t, refusal)
    case ClaimCell(t, refusal) => TakeClaim(s, t, refusal)
    case Admit(t, failure, token) => TakeAdmit(s, t, failure, token)
    case Deliver(t, failure, result) => TakeDeliver(s, t, failure, result)
    case CommitTurn(t) => TakeCommit(s, t)
    case Judge(t) => TakeJudge(s, t)
    case Recover(t) => TakeRecover(s, t)
    case Expire(id) => s.(pool := ReleaseCell(s.pool, id))
  }

  /** The steps a turn takes with the pool, outside the book's lock. */
  predicate WithPool(step: Step) {
    step.ClearForReprime? || step.ResumeCell? || step.ClaimCell? || step.Admit? || step.Deliver?
  }

  function Run(s: State, maxLeases: nat, steps: seq<Step>): State
    decreases |steps|
  {
    if steps == [] then s else Run(Apply(s, maxLeases, steps[0]), maxLeases, steps[1..])
  }

  ghost predicate Reachable(s: State, maxLeases: nat) {
    exists steps :: Run(Init(), maxLeases, steps) == s
  }
}
