/** Reaping children that no live pane has advertised for a full grace window.
    One poll sees the direct children and the pids of the running panes; a poll
    that could not see both is skipped. */
module ChildReaper {
  import opened Common

  type Pid = int

  /** Milliseconds. */
  const GRACE: int := 2_000

  datatype Observation = Observation(now: int, children: set<Pid>, active: set<Pid>)
  datatype Poll = Failed | Seen(observation: Observation)

  predicate Untracked(o: Observation, pid: Pid) {
    pid in o.children && pid !in o.active
  }

  // ---- the simple form: what the history of observations says ----

  /** `pid` has been untracked from observation `j` to the last one. */
  ghost predicate UntrackedSince(h: seq<Observation>, pid: Pid, j: nat) {
    j < |h| && forall i :: j <= i < |h| ==> Untracked(h[i], pid)
  }

  /** `j` starts the unbroken run of untracked observations that ends `h`. */
  ghost predicate IsRunStart(h: seq<Observation>, pid: Pid, j: nat) {
    UntrackedSince(h, pid, j) && (j > 0 ==> !Untracked(h[j - 1], pid))
  }

  function RunStart(h: seq<Observation>, pid: Pid): (j: nat)
    requires h != [] && Untracked(h[|h| - 1], pid)
    ensures IsRunStart(h, pid, j)
    ensures forall i: nat :: UntrackedSince(h, pid, i) ==> j <= i
  {
    var before := h[..|h| - 1];
    if before != [] && Untracked(before[|before| - 1], pid) then
      var j := RunStart(before, pid);
      assert forall i: nat :: UntrackedSince(h, pid, i) && i < |before| ==> UntrackedSince(before, pid, i);
      j
    else
      |h| - 1
  }

  /** Every child untracked now, mapped to the instant its run began. */
  function Starts(h: seq<Observation>): map<Pid, int> {
    if h == [] then map[]
    else map pid | pid in h[|h| - 1].children && Untracked(h[|h| - 1], pid) :: h[RunStart(h, pid)].now
  }

  /** The run of `pid` that ends `h` has lasted the grace period. */
  ghost predicate Due(h: seq<Observation>, pid: Pid) {
    h != [] && exists j: nat :: IsRunStart(h, pid, j) && h[|h| - 1].now - h[j].now >= GRACE
  }

  function Successes(polls: seq<Poll>): seq<Observation> {
    if polls == [] then []
    else
      var before := Successes(polls[..|polls| - 1]);
      var last := polls[|polls| - 1];
      if last.Seen? then before + [last.observation] else before
  }

  /** A poll that saw counts once, in order; one that failed leaves no trace. */
  lemma SuccessesNext(polls: seq<Poll>, o: Observation)
    ensures Successes([]) == []
    ensures Successes(polls + [Seen(o)]) == Successes(polls) + [o]
    ensures Successes(polls + [Failed]) == Successes(polls)
  {
    assert (polls + [Seen(o)])[..|polls|] == polls && (polls + [Failed])[..|polls|] == polls;
  }

  // ---- the incremental form ----

  /** The map after one observation. */
  function Next(first: map<Pid, int>, o: Observation): map<Pid, int> {
    map pid | pid in o.children && Untracked(o, pid) :: if pid in first then first[pid] else o.now
  }

  lemma RunStartIsUnique(h: seq<Observation>, pid: Pid, i: nat, j: nat)
    requires IsRunStart(h, pid, i) && IsRunStart(h, pid, j)
    ensures i == j
  {
    assert i > 0 ==> !Untracked(h[i - 1], pid);
    assert j > 0 ==> !Untracked(h[j - 1], pid);
  }

  /** Remembering one instant per child loses nothing of the history. */
  lemma NextIsHistory(h: seq<Observation>, o: Observation)
    ensures Next(Starts(h), o) == Starts(h + [o])
  {
    var all := h + [o];
    assert all[..|all| - 1] == h;
    forall pid | pid in o.children && Untracked(o, pid)
      ensures Next(Starts(h), o)[pid] == Starts(all)[pid]
    {
      if h != [] && Untracked(h[|h| - 1], pid) {
        assert RunStart(all, pid) == RunStart(h, pid);
      } else {
        assert RunStart(all, pid) == |h|;
      }
    }
    assert Next(Starts(h), o).Keys == Starts(all).Keys;
  }

  class Reaper {
    var firstUntracked: map<Pid, int>

    constructor ()
      ensures firstUntracked == map[]
    {
      firstUntracked := map[];
    }

    /** `attempts` are the children that reaping was attempted for. */
    method Observe(o: Observation) returns (attempts: set<Pid>)
      modifies this
      ensures firstUntracked == Next(old(firstUntracked), o)
      ensures forall pid :: pid in attempts <==> pid in firstUntracked && o.now - firstUntracked[pid] >= GRACE
    {
      ghost var before := firstUntracked;
      firstUntracked := map pid | pid in firstUntracked && pid in o.children && pid !in o.active :: firstUntracked[pid];
      ghost var retained := firstUntracked;
      attempts := {};
      var todo := o.children;
      while todo != {}
        invariant todo <= o.children
        invariant firstUntracked.Keys == retained.Keys + set pid | pid in o.children - todo && pid !in o.active
        invariant forall pid :: pid in firstUntracked ==>
                    firstUntracked[pid] == if pid in before then before[pid] else o.now
        invariant forall pid :: pid in attempts <==>
                    pid in o.children - todo && pid in firstUntracked && o.now - firstUntracked[pid] >= GRACE
        decreases todo
      {
        ghost var some := SomeMember(todo);
        var pid :| pid in todo;
        todo := todo - {pid};
        if pid in o.active {
          firstUntracked := firstUntracked - {pid};
        } else {
          if pid !in firstUntracked {
            firstUntracked := firstUntracked[pid := o.now];
          }
          if o.now - firstUntracked[pid] >= GRACE {
            attempts := attempts + {pid};
          }
        }
      }
      assert firstUntracked.Keys == Next(before, o).Keys;
    }
  }

  /** The due children are those whose remembered instant is old enough. */
  lemma DueIsOldEnough(h: seq<Observation>, pid: Pid)
    ensures Due(h, pid) <==> pid in Starts(h) && h[|h| - 1].now - Starts(h)[pid] >= GRACE
  {
    if Due(h, pid) {
      var j: nat :| IsRunStart(h, pid, j) && h[|h| - 1].now - h[j].now >= GRACE;
      RunStartIsUnique(h, pid, j, RunStart(h, pid));
    }
  }

  /** Reaping was attempted at poll `k` for exactly the children due then. */
  ghost predicate AttemptsDue(polls: seq<Poll>, k: nat, attempts: set<Pid>)
    requires k < |polls|
  {
    forall pid :: pid in attempts <==> polls[k].Seen? && Due(Successes(polls[..k + 1]), pid)
  }

  /** Over every sequence of polls, each poll attempts exactly the due children. */
  method ReapStaleUntrackedChildren(polls: seq<Poll>) returns (attempts: seq<set<Pid>>)
    ensures |attempts| == |polls|
    ensures forall k :: 0 <= k < |polls| ==> AttemptsDue(polls, k, attempts[k])
  {
    var reaper := new Reaper();
    attempts := [];
    assert polls[..0] == [];
    for k := 0 to |polls|
      invariant |attempts| == k
      invariant reaper.firstUntracked == Starts(Successes(polls[..k]))
      invariant forall i :: 0 <= i < k ==> AttemptsDue(polls, i, attempts[i])
    {
      assert polls[..k + 1][..k] == polls[..k];
      var now := {};
      if polls[k].Seen? {
        var o := polls[k].observation;
        NextIsHistory(Successes(polls[..k]), o);
        now := reaper.Observe(o);
        forall pid ensures pid in now <==> Due(Successes(polls[..k + 1]), pid) {
          DueIsOldEnough(Successes(polls[..k + 1]), pid);
        }
      }
      attempts := attempts + [now];
    }
  }

  // ---- what due means, for a clock that does not run backwards ----

  ghost predicate ClockMonotonic(h: seq<Observation>) {
    forall i, j :: 0 <= i <= j < |h| ==> h[i].now <= h[j].now
  }

  /** A reap is attempted exactly when some earlier observation lies two seconds back and
      the child was a child, and no pane's, in every observation since. */
  lemma DueIffUntrackedForGrace(h: seq<Observation>, pid: Pid)
    requires ClockMonotonic(h)
    ensures Due(h, pid) <==>
            exists j :: && 0 <= j < |h| && h[|h| - 1].now - h[j].now >= 2_000
                        && forall i :: j <= i < |h| ==> pid in h[i].children && pid !in h[i].active
  {
    if Due(h, pid) {
      var j: nat :| IsRunStart(h, pid, j) && h[|h| - 1].now - h[j].now >= GRACE;
      assert forall i :: j <= i < |h| ==> Untracked(h[i], pid);
    }
    if j :| && 0 <= j < |h| && h[|h| - 1].now - h[j].now >= 2_000
            && forall i :: j <= i < |h| ==> pid in h[i].children && pid !in h[i].active
    {
      assert UntrackedSince(h, pid, j);
      assert Untracked(h[|h| - 1], pid);
      var start := RunStart(h, pid);
      assert h[start].now <= h[j].now && IsRunStart(h, pid, start);
    }
  }

  /** Within one run: not before the grace period, at the first observation that
      reaches it, and at each one after. */
  lemma DueFromFirstReach(h: seq<Observation>, pid: Pid, start: nat, k: nat)
    requires IsRunStart(h, pid, start) && start <= k < |h|
    ensures Due(h[..k + 1], pid) <==> h[k].now >= h[start].now + GRACE
  {
    assert IsRunStart(h[..k + 1], pid, start);
    if Due(h[..k + 1], pid) {
      var j: nat :| IsRunStart(h[..k + 1], pid, j) && h[k].now - h[j].now >= GRACE;
      RunStartIsUnique(h[..k + 1], pid, start, j);
    }
  }

  /** A child that is advertised or gone once is never due before another full
      grace period of untracked observations. */
  lemma TrackedOnceRestartsGrace(h: seq<Observation>, pid: Pid, i: nat)
    requires ClockMonotonic(h) && i < |h| && !Untracked(h[i], pid) && Due(h, pid)
    ensures i + 1 < |h| && h[|h| - 1].now - h[i + 1].now >= GRACE
  {
    var j: nat :| IsRunStart(h, pid, j) && h[|h| - 1].now - h[j].now >= GRACE;
    assert i < j;
  }
}
