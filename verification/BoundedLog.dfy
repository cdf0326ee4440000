/** The append-only daemon log with a hard byte ceiling and one retained backup.
    A `Bytes` holds one character per byte. */
module BoundedLog {
  import opened Common

  type Bytes = string

  const CAPACITY_RECORD: Bytes := "{\"event\":\"log_capacity_reached\"}\n"
  const RESERVE: nat := 33

  /** The log directory: the current file, the backup and the marker of a full log. */
  datatype Disk = Disk(current: Option<Bytes>, backup: Option<Bytes>, full: bool)
  datatype WriterState = WriterState(written: nat, capped: bool)
  datatype Log = Log(disk: Disk, writer: Option<WriterState>)

  datatype Step = Open | Write(event: Bytes) | Drop

  function Contents(file: Option<Bytes>): Bytes {
    if file.Some? then file.value else []
  }

  // ---- what each operation does to the directory ----

  predicate Rotates(d: Disk, maximum: nat) {
    d.full || |Contents(d.current)| >= maximum
  }

  function OpenDisk(d: Disk, maximum: nat): Disk {
    if Rotates(d, maximum) then
      Disk(Some([]),
           if d.current.None? then None
           else if |d.current.value| > maximum then Some(d.current.value[..maximum])
           else d.current,
           false)
    else
      d.(current := Some(Contents(d.current)))
  }

  function Append(d: Disk, bytes: Bytes): Disk {
    d.(current := Some(Contents(d.current) + bytes))
  }

  function Apply(log: Log, step: Step, maximum: nat): Log {
    match step
    case Open =>
      if log.writer.Some? || maximum <= RESERVE then log
      else
        var disk := OpenDisk(log.disk, maximum);
        Log(disk, Some(WriterState(|Contents(disk.current)|, false)))
    case Write(event) =>
      if log.writer.None? || maximum <= RESERVE || log.writer.value.capped then log
      else
        var w := log.writer.value;
        if w.written + |event| <= maximum - RESERVE then
          Log(Append(log.disk, event), Some(w.(written := w.written + |event|)))
        else
          // The marker is created anew: on one that exists already this fails,
          // after the record was written.
          Log(Append(log.disk, CAPACITY_RECORD).(full := true),
              Some(WriterState(w.written + RESERVE, !log.disk.full)))
    case Drop => log.(writer := None)
  }

  function Run(log: Log, steps: seq<Step>, maximum: nat): Log {
    if steps == [] then log
    else Apply(Run(log, steps[..|steps| - 1], maximum), steps[|steps| - 1], maximum)
  }

  const FRESH: Log := Log(Disk(None, None, false), None)

  // ---- the writer itself ----

  class Directory {
    var current: Option<Bytes>
    var backup: Option<Bytes>
    var full: bool

    ghost function OnDisk(): Disk reads this {
      Disk(current, backup, full)
    }
  }

  class BoundedLogWriter {
    const directory: Directory
    const maximum: nat
    var written: nat
    var capped: bool

    constructor (directory: Directory, maximum: nat, written: nat)
      ensures this.directory == directory && this.maximum == maximum
      ensures this.written == written && !this.capped
    {
      this.directory, this.maximum, this.written, this.capped := directory, maximum, written, false;
    }

    ghost function AsLog(): Log reads this, directory {
      Log(directory.OnDisk(), Some(WriterState(written, capped)))
    }

    /** Ends with an error exactly when the marker was there before. */
    method MarkCapped() returns (ok: bool)
      modifies this`written, this`capped, directory
      ensures old(capped) ==> ok && AsLog() == old(AsLog())
      ensures !old(capped) ==>
                && ok == !old(directory.full)
                && AsLog() == Log(Append(old(directory.OnDisk()), CAPACITY_RECORD).(full := true),
                                  Some(WriterState(old(written) + RESERVE, ok)))
    {
      if capped {
        return true;
      }
      directory.current := Some(Contents(directory.current) + CAPACITY_RECORD);
      written := written + |CAPACITY_RECORD|;
      if directory.full {
        return false;
      }
      directory.full := true;
      capped := true;
      return true;
    }

    /** Either the whole event is appended or none of it. */
    method Write(event: Bytes) returns (ok: bool)
      requires maximum > RESERVE
      modifies this`written, this`capped, directory
      ensures AsLog() == Apply(old(AsLog()), Step.Write(event), maximum)
      ensures !ok ==> old(directory.full)
    {
      if capped {
        return true;
      }
      var payloadLimit := maximum - |CAPACITY_RECORD|;
      if written + |event| <= payloadLimit {
        directory.current := Some(Contents(directory.current) + event);
        written := written + |event|;
        ok := true;
      } else {
        ok := MarkCapped();
      }
    }
  }

  method OpenLog(directory: Directory, maximum: nat) returns (writer: Option<BoundedLogWriter>)
    modifies directory
    ensures writer.Some? <==> maximum > RESERVE
    ensures writer.Some? ==>
              && fresh(writer.value) && writer.value.directory == directory && writer.value.maximum == maximum
              && writer.value.AsLog() == Apply(Log(old(directory.OnDisk()), None), Open, maximum)
    ensures writer.None? ==> directory.OnDisk() == old(directory.OnDisk())
  {
    if maximum <= |CAPACITY_RECORD| {
      return None;
    }
    var currentBytes := |Contents(directory.current)|;
    if directory.full || currentBytes >= maximum {
      directory.backup := None;
      if directory.current.Some? {
        directory.backup, directory.current := directory.current, None;
        if |directory.backup.value| > maximum {
          directory.backup := Some(directory.backup.value[..maximum]);
        }
      }
      directory.full := false;
    }
    directory.current := Some(Contents(directory.current));
    var w := new BoundedLogWriter(directory, maximum, |directory.current.value|);
    writer := Some(w);
  }

  // ---- the simple form: whole events, in generations ----

  /** The events one file accepted, and whether it was closed by a capacity record. */
  datatype Generation = Generation(events: seq<Bytes>, capped: bool)

  /** `older` are the events of generations that are no longer retained. */
  datatype History = History(older: seq<Bytes>, backup: Option<Generation>, current: Option<Generation>, open: bool)

  function Events(g: Option<Generation>): seq<Bytes> {
    if g.Some? then g.value.events else []
  }

  /** Everything ever accepted, in order. */
  function Accepted(h: History): seq<Bytes> {
    h.older + Events(h.backup) + Events(h.current)
  }

  /** Whether an event offered now is kept. */
  predicate Keeps(h: History, event: Bytes, maximum: nat) {
    && h.open && h.current.Some? && !h.current.value.capped
    && |Flatten(h.current.value.events)| + |event| <= maximum - RESERVE
  }

  function Tell(h: History, step: Step, maximum: nat): History {
    match step
    case Open =>
      if h.open || maximum <= RESERVE then h
      else if h.current.None? then h.(current := Some(Generation([], false)), open := true)
      else if h.current.value.capped then
        History(h.older + Events(h.backup), h.current, Some(Generation([], false)), true)
      else h.(open := true)
    case Write(event) =>
      if Keeps(h, event, maximum) then
        h.(current := Some(Generation(h.current.value.events + [event], false)))
      else if h.open && h.current.Some? then
        h.(current := Some(h.current.value.(capped := true)))
      else h
    case Drop => h.(open := false)
  }

  function Told(steps: seq<Step>, maximum: nat): History {
    if steps == [] then History([], None, None, false)
    else Tell(Told(steps[..|steps| - 1], maximum), steps[|steps| - 1], maximum)
  }

  function Render(g: Generation): Bytes {
    Flatten(g.events) + if g.capped then CAPACITY_RECORD else []
  }

  function RenderFile(g: Option<Generation>): Option<Bytes> {
    if g.Some? then Some(Render(g.value)) else None
  }

  predicate Fits(g: Option<Generation>, maximum: nat) {
    g.Some? ==> maximum > RESERVE && |Flatten(g.value.events)| <= maximum - RESERVE
  }

  predicate CurrentCapped(h: History) {
    h.current.Some? && h.current.value.capped
  }

  /** The bytes on disk are the generations, and the writer's fields agree. */
  predicate Shows(log: Log, h: History, maximum: nat) {
    && log.disk.current == RenderFile(h.current) && log.disk.backup == RenderFile(h.backup)
    && log.disk.full == CurrentCapped(h)
    && Fits(h.current, maximum) && Fits(h.backup, maximum)
    && (log.writer.Some? <==> h.open) && (h.open ==> h.current.Some? && maximum > RESERVE)
    && (log.writer.Some? ==>
          log.writer.value == WriterState(|Contents(log.disk.current)|, CurrentCapped(h)))
  }

  lemma RenderSize(g: Generation)
    ensures |Render(g)| == |Flatten(g.events)| + if g.capped then RESERVE else 0
  {
    assert |CAPACITY_RECORD| == RESERVE;
  }

  lemma EmptyRender()
    ensures Render(Generation([], false)) == []
  {
  }

  lemma OpenShows(log: Log, h: History, maximum: nat)
    requires Shows(log, h, maximum) && maximum > RESERVE && !h.open
    ensures Shows(Apply(log, Open, maximum), Tell(h, Open, maximum), maximum)
  {
    EmptyRender();
    if h.current.Some? {
      RenderSize(h.current.value);
      assert Contents(log.disk.current) == Render(h.current.value);
      assert Rotates(log.disk, maximum) <==> h.current.value.capped;
    }
  }

  lemma WriteShows(log: Log, h: History, event: Bytes, maximum: nat)
    requires Shows(log, h, maximum) && h.open && !CurrentCapped(h)
    ensures Shows(Apply(log, Write(event), maximum), Tell(h, Write(event), maximum), maximum)
  {
    var events := h.current.value.events;
    RenderSize(h.current.value);
    assert Contents(log.disk.current) == Flatten(events);
    if Keeps(h, event, maximum) {
      FlattenAppend(events, event);
      RenderSize(Generation(events + [event], false));
      assert Render(Generation(events + [event], false)) == Flatten(events) + event;
    } else {
      RenderSize(Generation(events, true));
      assert Render(Generation(events, true)) == Flatten(events) + CAPACITY_RECORD;
    }
  }

  lemma StepShows(log: Log, h: History, step: Step, maximum: nat)
    requires Shows(log, h, maximum)
    ensures Shows(Apply(log, step, maximum), Tell(h, step, maximum), maximum)
  {
    match step
    case Open =>
      if maximum > RESERVE && !h.open {
        OpenShows(log, h, maximum);
      }
    case Write(event) =>
      if h.open && !CurrentCapped(h) {
        WriteShows(log, h, event, maximum);
      }
    case Drop =>
  }

  /** Every run of opens, writes and drops from an empty directory leaves exactly
      the generations on disk. */
  lemma {:induction false} RunShows(steps: seq<Step>, maximum: nat)
    ensures Shows(Run(FRESH, steps, maximum), Told(steps, maximum), maximum)
  {
    if steps != [] {
      var before := steps[..|steps| - 1];
      RunShows(before, maximum);
      StepShows(Run(FRESH, before, maximum), Told(before, maximum), steps[|steps| - 1], maximum);
    }
  }

  // ---- what that means for a reader of the log ----

  /** A file is whole events followed by at most one capacity record. */
  ghost predicate WholeEvents(file: Bytes, events: seq<Bytes>, capped: bool) {
    file == Flatten(events) + if capped then CAPACITY_RECORD else []
  }

  lemma ShownSize(g: Option<Generation>, maximum: nat)
    requires Fits(g, maximum)
    ensures |Contents(RenderFile(g))| <= maximum
  {
    if g.Some? {
      RenderSize(g.value);
    }
  }

  /** Neither file ever exceeds the maximum. */
  lemma FilesNeverExceed(steps: seq<Step>, maximum: nat)
    ensures |Contents(Run(FRESH, steps, maximum).disk.current)| <= maximum
    ensures |Contents(Run(FRESH, steps, maximum).disk.backup)| <= maximum
  {
    RunShows(steps, maximum);
    ShownSize(Told(steps, maximum).current, maximum);
    ShownSize(Told(steps, maximum).backup, maximum);
  }

  /** The marker is there exactly when the current file was closed by its record. */
  lemma MarkerIffCapped(steps: seq<Step>, maximum: nat)
    ensures Run(FRESH, steps, maximum).disk.full <==> CurrentCapped(Told(steps, maximum))
  {
    RunShows(steps, maximum);
  }

  /** Each file is whole accepted events in order, the backup closed by its record and
      the current file by one exactly when the marker is there. */
  lemma FilesAreWholeEvents(steps: seq<Step>, maximum: nat)
    ensures var disk := Run(FRESH, steps, maximum).disk;
            var h := Told(steps, maximum);
            && (disk.current.Some? ==> WholeEvents(disk.current.value, Events(h.current), disk.full))
            && (disk.backup.Some? ==> WholeEvents(disk.backup.value, Events(h.backup), true))
  {
    RunShows(steps, maximum);
    BackupsAreCapped(steps, maximum);
  }

  lemma {:induction false} BackupsAreCapped(steps: seq<Step>, maximum: nat)
    ensures Told(steps, maximum).backup.Some? ==> Told(steps, maximum).backup.value.capped
  {
    if steps != [] {
      BackupsAreCapped(steps[..|steps| - 1], maximum);
    }
  }

  /** The marker is never in the way, so marking the log as full never fails. */
  lemma MarkingNeverFails(steps: seq<Step>, maximum: nat)
    ensures var log := Run(FRESH, steps, maximum);
            log.writer.Some? && !log.writer.value.capped ==> !log.disk.full
  {
    RunShows(steps, maximum);
  }

  /** Over any run, an event offered to a log that is not capped is appended whole when it
      leaves room for the capacity record, and otherwise only the record is; a capped
      log takes nothing more. */
  lemma WriteOutcome(steps: seq<Step>, maximum: nat, event: Bytes)
    requires Run(FRESH, steps, maximum).writer.Some?
    ensures var log := Run(FRESH, steps, maximum);
            var after := Apply(log, Write(event), maximum);
            var held := Contents(log.disk.current);
            if log.writer.value.capped then after == log
            else if |held| + |event| + 33 <= maximum then
              after == Log(log.disk.(current := Some(held + event)), Some(WriterState(|held| + |event|, false)))
            else
              after == Log(log.disk.(current := Some(held + "{\"event\":\"log_capacity_reached\"}\n"), full := true),
                           Some(WriterState(|held| + 33, true)))
  {
    RunShows(steps, maximum);
  }

  /** Opening any directory: a marked or oversized file becomes the only backup, cut to
      the maximum, and a new file is begun; any other file is appended to. */
  lemma OpenOutcome(disk: Disk, maximum: nat)
    ensures var after := Apply(Log(disk, None), Open, maximum);
            var held := Contents(disk.current);
            if maximum <= 33 then after == Log(disk, None)
            else if disk.full || |held| >= maximum then
              && after.disk.current == Some([]) && !after.disk.full
              && after.disk.backup ==
                   (if disk.current.None? then None else Some(held[..if |held| > maximum then maximum else |held|]))
              && after.writer == Some(WriterState(0, false))
            else after == Log(disk.(current := Some(held)), Some(WriterState(|held|, false)))
  {
    var held := Contents(disk.current);
    assert held[..|held|] == held;
  }

  /** `a` is `b` with some elements left out. */
  predicate Subsequence(a: seq<Bytes>, b: seq<Bytes>) {
    a == [] || (b != [] &&
      (Subsequence(a, b[..|b| - 1]) || (a[|a| - 1] == b[|b| - 1] && Subsequence(a[..|a| - 1], b[..|b| - 1]))))
  }

  function Offered(steps: seq<Step>): seq<Bytes> {
    if steps == [] then []
    else
      var before := Offered(steps[..|steps| - 1]);
      var last := steps[|steps| - 1];
      if last.Write? then before + [last.event] else before
  }

  /** One step accepts the offered event at the end, or nothing: rotation keeps order. */
  lemma StepAccepts(h: History, step: Step, maximum: nat)
    ensures Accepted(Tell(h, step, maximum)) ==
            Accepted(h) + if step.Write? && Keeps(h, step.event, maximum) then [step.event] else []
  {
    var next := Tell(h, step, maximum);
    if step.Open? && next.backup != h.backup {
      assert Accepted(next) == h.older + Events(h.backup) + Events(h.current) + [];
    }
  }

  /** Nothing is invented, repeated or reordered. */
  lemma {:induction false} AcceptedWereOffered(steps: seq<Step>, maximum: nat)
    ensures Subsequence(Accepted(Told(steps, maximum)), Offered(steps))
  {
    if steps != [] {
      var before, last := steps[..|steps| - 1], steps[|steps| - 1];
      AcceptedWereOffered(before, maximum);
      StepAccepts(Told(before, maximum), last, maximum);
      var kept := Accepted(Told(before, maximum));
      assert kept + [] == kept;
      if last.Write? {
        var all := Offered(before) + [last.event];
        assert all[..|all| - 1] == Offered(before);
        assert (kept + [last.event])[..|kept|] == kept;
      }
    }
  }

  /** A restart of a log that is not full changes nothing; a restart of a full one
      keeps its file, byte for byte, as the only backup. */
  lemma RestartRotatesIffFull(steps: seq<Step>, maximum: nat)
    requires Run(FRESH, steps, maximum).writer.Some?
    ensures var log := Run(FRESH, steps, maximum);
            var again := Apply(Apply(log, Drop, maximum), Open, maximum);
            if log.disk.full
            then again == Log(Disk(Some([]), log.disk.current, false), Some(WriterState(0, false)))
            else again == log
  {
    RunShows(steps, maximum);
    assert |CAPACITY_RECORD| == RESERVE;
  }

  // ---- a directory that was not empty ----

  function CurrentSize(log: Log): nat {
    |Contents(log.disk.current)|
  }

  predicate HasRoom(log: Log, maximum: nat) {
    && maximum > RESERVE
    && CurrentSize(log) <= maximum
    && (!log.disk.full ==> CurrentSize(log) <= maximum - RESERVE)
    && (log.writer.Some? ==> log.writer.value == WriterState(CurrentSize(log), log.disk.full))
  }

  lemma {:induction false} RoomIsKept(log: Log, steps: seq<Step>, maximum: nat)
    requires HasRoom(log, maximum)
    ensures HasRoom(Run(log, steps, maximum), maximum)
  {
    if steps != [] {
      assert |CAPACITY_RECORD| == RESERVE;
      RoomIsKept(log, steps[..|steps| - 1], maximum);
    }
  }

  lemma {:induction false} RunAfter(log: Log, first: Step, steps: seq<Step>, maximum: nat)
    ensures Run(log, [first] + steps, maximum) == Run(Apply(log, first, maximum), steps, maximum)
  {
    if steps == [] {
      assert [first] + steps == [first] && [first][..0] == [];
    } else {
      var before := steps[..|steps| - 1];
      RunAfter(log, first, before, maximum);
      assert ([first] + steps)[..|steps|] == [first] + before;
    }
  }

  ghost predicate CeilingHolds(disk: Disk, maximum: nat) {
    forall steps: seq<Step> :: CurrentSize(Run(Log(disk, None), [Open] + steps, maximum)) <= maximum
  }

  /** A file that fills the reserve without reaching the ceiling is opened for
      appending, and the capacity record then carries it over the ceiling. From
      every other directory the ceiling holds for good. */
  lemma CeilingHoldsIff(disk: Disk, maximum: nat)
    requires maximum > RESERVE
    ensures CeilingHolds(disk, maximum) <==>
            disk.full || |Contents(disk.current)| <= maximum - RESERVE || |Contents(disk.current)| >= maximum
  {
    var start := Log(disk, None);
    var begun := Apply(start, Open, maximum);
    assert |CAPACITY_RECORD| == RESERVE;
    if disk.full || |Contents(disk.current)| <= maximum - RESERVE || |Contents(disk.current)| >= maximum {
      forall steps: seq<Step> ensures CurrentSize(Run(start, [Open] + steps, maximum)) <= maximum {
        RunAfter(start, Open, steps, maximum);
        RoomIsKept(begun, steps, maximum);
      }
    } else {
      var steps := [Write("x")];
      RunAfter(start, Open, steps, maximum);
      assert steps[..0] == [] && Run(begun, [], maximum) == begun;
      assert Run(begun, steps, maximum) == Apply(begun, Write("x"), maximum);
      assert CurrentSize(Run(start, [Open] + steps, maximum)) > maximum;
    }
  }
}
