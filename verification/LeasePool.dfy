/** Fingerprints of requests, and the part of the instance pool that a
    conversation can see: which cell it holds and what was typed into it. */
module LeasePool {
  import opened Common

  type ConversationId = string
  type TaskId = nat
  type Message = string

  /** What the pool keys its instances by: canonical model, effort and account. */
  datatype PoolClass = PoolClass(model: string, effort: string, account: string)

  datatype Fingerprint = Fingerprint(cls: PoolClass, systemTools: string, messages: seq<Message>)

  datatype PrefixDecision = Continue(from: nat) | Replay | Reprime

  function ClassifyPrefix(previous: Fingerprint, next: Fingerprint): (r: PrefixDecision)
    ensures r == Replay <==> previous == next
    ensures r.Continue? ==> r.from < |next.messages|
                            && previous.messages + next.messages[r.from..] == next.messages
  {
    if previous.cls != next.cls then Reprime
    else if previous.systemTools != next.systemTools then Reprime
    else if next.messages == previous.messages then Replay
    else if previous.messages <= next.messages && |next.messages| > |previous.messages| then
      Continue(|previous.messages|)
    else Reprime
  }

  /** A continuation is chosen exactly when the request is the previous one with
      at least one message added at the end, so nothing is ever re-typed. */
  lemma ContinueIsStrictExtension(previous: Fingerprint, next: Fingerprint, tail: seq<Message>)
    requires tail != []
    requires next == previous.(messages := previous.messages + tail)
    ensures ClassifyPrefix(previous, next) == Continue(|previous.messages|)
    ensures next.messages[|previous.messages|..] == tail
  {
    assert previous.messages <= next.messages;
  }

  datatype ErrorCode = InvalidConfig | SessionBusy | SessionNotFound | UnsupportedFeature | Other(name: string)

  /** One prompt typed into a cell: the whole request, or only its new messages. */
  datatype Prompt =
    | Primer(systemTools: string, messages: seq<Message>)
    | Suffix(messages: seq<Message>)

  /** The pool's view of one conversation.
      Pending: `claim_new_lease` reserved the id and waits for an instance.
      CheckedOut: a turn of `task` is running in the instance.
      Leased: the instance rests between turns. */
  datatype Cell =
    | Pending(task: TaskId)
    | CheckedOut(task: TaskId, cls: PoolClass, transcript: seq<Prompt>, token: string, prompt: Prompt)
    | Leased(cls: PoolClass, transcript: seq<Prompt>, token: string)

  type Pool = map<ConversationId, Cell>

  /** The ids `conversation_leases` reports: a pending claim is not among them. */
  function PoolIds(pool: Pool): set<ConversationId> {
    set id | id in pool && !pool[id].Pending?
  }

  predicate IsLeased(pool: Pool, id: ConversationId) {
    id in pool && pool[id].Leased?
  }

  /** `release_conversation`: `/clear` a resting cell, touch nothing else. */
  function ReleaseCell(pool: Pool, id: ConversationId): Pool {
    if IsLeased(pool, id) then pool - {id} else pool
  }

  /** What a cell has been told since its last `/clear`: the system text and tools
      of its primer, and every message typed, in order. None when nothing was
      typed, or when a primer landed on top of another conversation. */
  function Heard(transcript: seq<Prompt>): Option<(string, seq<Message>)> {
    if transcript == [] then None
    else
      var before := transcript[..|transcript| - 1];
      match transcript[|transcript| - 1]
      case Primer(system, messages) =>
        if before == [] then Some((system, messages)) else None
      case Suffix(messages) =>
        match Heard(before)
        case None => None
        case Some(told) => Some((told.0, told.1 + messages))
  }

  lemma HeardAfter(transcript: seq<Prompt>, prompt: Prompt)
    ensures transcript == [] && prompt.Primer? ==>
              Heard(transcript + [prompt]) == Some((prompt.systemTools, prompt.messages))
    ensures prompt.Suffix? && Heard(transcript).Some? ==>
              Heard(transcript + [prompt])
              == Some((Heard(transcript).value.0, Heard(transcript).value.1 + prompt.messages))
  {
    var whole := transcript + [prompt];
    assert whole[..|whole| - 1] == transcript;
  }
}
