/** The persisted day and week counters. Recorders and one flusher run concurrently and touch the
    shared fields one atomic access at a time; the model interleaves those accesses freely (it
    leaves out the key locks, which only adds interleavings) and lets every write fail and the
    process restart at any point. */
module BlockStats {
  import opened Bytes

  datatype Counts = Counts(day: string, week: u32, dayCount: u64, weekCount: u64)

  function Increment(n: u64): u64 { if n == 0xFFFF_FFFF_FFFF_FFFF then 0 else n + 1 }

  /** Counting is modulo 2^64. */
  lemma CountsByOne(n: u64)
    ensures Increment(n) == (n + 1) % 0x1_0000_0000_0000_0000
  {
  }

  /** What loading the file under the given keys restores; a missing or unreadable file counts as none. */
  function Load(disk: Option<Counts>, day: string, week: u32): Counts {
    Counts(day, week,
           if disk.Some? && disk.value.day == day then disk.value.dayCount else 0,
           if disk.Some? && disk.value.week == week then disk.value.weekCount else 0)
  }

  /** Reloading the file now would give back the in-memory counts. */
  predicate Consistent(disk: Option<Counts>, mem: Counts) { Load(disk, mem.day, mem.week) == mem }

  // ---------------------------------------------------------------- the interleaved machine

  /** Where a recording or reading thread stands: first the roll, key by key, then (for a
      recording) the two increments and the dirty flag. */
  datatype Pc =
    | RollDay(day: string, week: u32, recording: bool)
    | ZeroDay(week: u32, recording: bool) | DirtyDay(week: u32, recording: bool)
    | RollWeek(week: u32, recording: bool) | ZeroWeek(recording: bool) | DirtyWeek(recording: bool)
    | AddDay | AddWeek | MarkDirty | Done

  datatype Flusher =
    | Idle | ReadDay | ReadWeek(day: string) | ReadDayCount(day: string, week: u32)
    | ReadWeekCount(day: string, week: u32, dayCount: u64) | Write(snapshot: Counts) | Failed

  datatype State = State(mem: Counts, dirty: bool, disk: Option<Counts>, threads: map<nat, Pc>, flusher: Flusher)

  datatype Step =
    | Start(thread: nat, day: string, week: u32, recording: bool)
    | StartThrottled(thread: nat, recording: bool)
    | Advance(thread: nat)
    | Flush(writeSucceeds: bool)
    | Restart(day: string, week: u32)

  function AfterRoll(recording: bool): Pc { if recording then AddDay else Done }

  /** One atomic access of one thread. */
  function AdvanceThread(s: State, t: nat): State
    requires t in s.threads
  {
    var m := s.mem;
    match s.threads[t]
    case RollDay(day, week, r) =>
      if m.day != day then s.(mem := m.(day := day), threads := s.threads[t := ZeroDay(week, r)])
      else s.(threads := s.threads[t := RollWeek(week, r)])
    case ZeroDay(week, r) => s.(mem := m.(dayCount := 0), threads := s.threads[t := DirtyDay(week, r)])
    case DirtyDay(week, r) => s.(dirty := true, threads := s.threads[t := RollWeek(week, r)])
    case RollWeek(week, r) =>
      if m.week != week then s.(mem := m.(week := week), threads := s.threads[t := ZeroWeek(r)])
      else s.(threads := s.threads[t := AfterRoll(r)])
    case ZeroWeek(r) => s.(mem := m.(weekCount := 0), threads := s.threads[t := DirtyWeek(r)])
    case DirtyWeek(r) => s.(dirty := true, threads := s.threads[t := AfterRoll(r)])
    case AddDay => s.(mem := m.(dayCount := Increment(m.dayCount)), threads := s.threads[t := AddWeek])
    case AddWeek => s.(mem := m.(weekCount := Increment(m.weekCount)), threads := s.threads[t := MarkDirty])
    case MarkDirty => s.(dirty := true, threads := s.threads[t := Done])
    case Done => s
  }

  /** One atomic access of the flusher: swap the flag, read the four fields, write or fail. */
  function AdvanceFlusher(s: State, writeSucceeds: bool): State {
    match s.flusher
    case Idle => if s.dirty then s.(dirty := false, flusher := ReadDay) else s
    case ReadDay => s.(flusher := ReadWeek(s.mem.day))
    case ReadWeek(day) => s.(flusher := ReadDayCount(day, s.mem.week))
    case ReadDayCount(day, week) => s.(flusher := ReadWeekCount(day, week, s.mem.dayCount))
    case ReadWeekCount(day, week, dayCount) => s.(flusher := Write(Counts(day, week, dayCount, s.mem.weekCount)))
    case Write(snapshot) => if writeSucceeds then s.(disk := Some(snapshot), flusher := Idle) else s.(flusher := Failed)
    case Failed => s.(dirty := true, flusher := Idle)
  }

  predicate CanStart(s: State, t: nat) { t !in s.threads || s.threads[t].Done? }

  function Apply(s: State, step: Step): State {
    match step
    case Start(t, day, week, r) => if CanStart(s, t) then s.(threads := s.threads[t := RollDay(day, week, r)]) else s
    case StartThrottled(t, r) => if CanStart(s, t) then s.(threads := s.threads[t := AfterRoll(r)]) else s
    case Advance(t) => if t in s.threads then AdvanceThread(s, t) else s
    case Flush(ok) => AdvanceFlusher(s, ok)
    case Restart(day, week) => State(Load(s.disk, day, week), false, s.disk, map[], Idle)
  }

  function After(s: State, steps: seq<Step>, n: nat): State
    requires n <= |steps|
  {
    if n == 0 then s else Apply(After(s, steps, n - 1), steps[n - 1])
  }

  // ---------------------------------------------------------------- the invariant

  /** The thread has changed a field and has yet to set the dirty flag. */
  predicate Unsettled(pc: Pc) {
    pc.ZeroDay? || pc.DirtyDay? || pc.ZeroWeek? || pc.DirtyWeek? || pc.AddWeek? || pc.MarkDirty?
  }

  /** What the flusher has read so far is still what memory holds. */
  predicate FlusherAgrees(f: Flusher, mem: Counts, disk: Option<Counts>) {
    match f
    case Idle => Consistent(disk, mem)
    case ReadDay => true
    case ReadWeek(day) => day == mem.day
    case ReadDayCount(day, week) => day == mem.day && week == mem.week
    case ReadWeekCount(day, week, dayCount) => day == mem.day && week == mem.week && dayCount == mem.dayCount
    case Write(snapshot) => snapshot == mem
    case Failed => true
  }

  ghost predicate Inv(s: State) {
    s.dirty || (exists t :: t in s.threads && Unsettled(s.threads[t])) || FlusherAgrees(s.flusher, s.mem, s.disk)
  }

  lemma ThreadKeepsInv(s: State, t: nat)
    requires Inv(s) && t in s.threads
    ensures Inv(AdvanceThread(s, t))
  {
    hide FlusherAgrees, Increment;
    var s' := AdvanceThread(s, t);
    if !s'.dirty && !Unsettled(s'.threads[t]) && exists u :: u in s.threads && Unsettled(s.threads[u]) {
      var u :| u in s.threads && Unsettled(s.threads[u]);
      assert u in s'.threads && s'.threads[u] == s.threads[u];
    }
  }

  lemma FlusherKeepsInv(s: State, writeSucceeds: bool)
    requires Inv(s)
    ensures Inv(AdvanceFlusher(s, writeSucceeds))
  {
    var s' := AdvanceFlusher(s, writeSucceeds);
    if exists t :: t in s.threads && Unsettled(s.threads[t]) {
      var t :| t in s.threads && Unsettled(s.threads[t]);
      assert t in s'.threads && Unsettled(s'.threads[t]);
    }
  }

  lemma ApplyKeepsInv(s: State, step: Step)
    requires Inv(s)
    ensures Inv(Apply(s, step))
  {
    match step
    case Advance(t) => if t in s.threads { ThreadKeepsInv(s, t); }
    case Flush(ok) => FlusherKeepsInv(s, ok);
    case Restart(day, week) =>
    case Start(t, _, _, _) => StartKeepsInv(s, t, Apply(s, step));
    case StartThrottled(t, _) => StartKeepsInv(s, t, Apply(s, step));
  }

  lemma StartKeepsInv(s: State, t: nat, s': State)
    requires Inv(s)
    requires s' == s || (CanStart(s, t) && t in s'.threads && s' == s.(threads := s.threads[t := s'.threads[t]]))
    ensures Inv(s')
  {
    if exists u :: u in s.threads && Unsettled(s.threads[u]) {
      var u :| u in s.threads && Unsettled(s.threads[u]);
      assert u in s'.threads && s'.threads[u] == s.threads[u];
    }
  }

  ghost predicate Quiet(s: State) {
    s.flusher.Idle? && forall t :: t in s.threads ==> s.threads[t].Done?
  }

  lemma {:induction false} InvAlways(disk: Option<Counts>, day: string, week: u32, steps: seq<Step>, n: nat)
    requires n <= |steps|
    ensures Inv(After(State(Load(disk, day, week), false, disk, map[], Idle), steps, n))
  {
    if n > 0 {
      InvAlways(disk, day, week, steps, n - 1);
      ApplyKeepsInv(After(State(Load(disk, day, week), false, disk, map[], Idle), steps, n - 1), steps[n - 1]);
    }
  }

  /** In every interleaving, with any writes failing and any restarts: whenever the dirty flag is
      clear and nothing is in flight, reloading the file under the current keys gives exactly the
      counts in memory. */
  lemma CleanMeansPersisted(disk: Option<Counts>, day: string, week: u32, steps: seq<Step>, n: nat)
    requires n <= |steps|
    ensures var s := After(State(Load(disk, day, week), false, disk, map[], Idle), steps, n);
      Quiet(s) && !s.dirty ==> Load(s.disk, s.mem.day, s.mem.week) == s.mem
  {
    hide After;
    InvAlways(disk, day, week, steps, n);
  }

  /** So a restart in the same period then loses nothing: but for the finished threads the state is the same. */
  lemma RestartLosesNothing(disk: Option<Counts>, day: string, week: u32, steps: seq<Step>, n: nat)
    requires n <= |steps|
    ensures var s := After(State(Load(disk, day, week), false, disk, map[], Idle), steps, n);
      Quiet(s) && !s.dirty ==> Apply(s, Restart(s.mem.day, s.mem.week)) == s.(threads := map[])
  {
    hide After;
    CleanMeansPersisted(disk, day, week, steps, n);
  }

  // ---------------------------------------------------------------- no block is lost

  /** The thread still has to raise the day count. */
  predicate OwesDay(pc: Pc) {
    || pc.AddDay?
    || ((pc.RollDay? || pc.ZeroDay? || pc.DirtyDay? || pc.RollWeek? || pc.ZeroWeek? || pc.DirtyWeek?) && pc.recording)
  }

  predicate OwesWeek(pc: Pc) { OwesDay(pc) || pc.AddWeek? }

  ghost function Owing(threads: map<nat, Pc>, owes: Pc -> bool): set<nat> { set t | t in threads && owes(threads[t]) }

  lemma OwingElsewhere(threads: map<nat, Pc>, t: nat, pc: Pc, owes: Pc -> bool)
    ensures Owing(threads[t := pc], owes) - {t} == Owing(threads, owes) - {t}
    ensures t in Owing(threads[t := pc], owes) <==> owes(pc)
  {
  }

  lemma OwingAfter(threads: map<nat, Pc>, t: nat, pc: Pc, owes: Pc -> bool)
    ensures |Owing(threads[t := pc], owes)| ==
      |Owing(threads, owes)| - (if t in threads && owes(threads[t]) then 1 else 0) + if owes(pc) then 1 else 0
  {
    assert t in Owing(threads, owes) <==> t in threads && owes(threads[t]);
    OwingElsewhere(threads, t, pc, owes);
    SizeWithout(Owing(threads, owes), t);
    SizeWithout(Owing(threads[t := pc], owes), t);
    hide Owing;
  }

  lemma SizeWithout(s: set<nat>, t: nat)
    ensures |s| == |s - {t}| + if t in s then 1 else 0
  {
    if t in s { assert s == s - {t} + {t}; } else { assert s == s - {t}; }
  }

  /** The step starts a recording. */
  predicate StartsRecording(s: State, step: Step) {
    (step.Start? || step.StartThrottled?) && step.recording && CanStart(s, step.thread)
  }

  /** How many recordings were started by the first `n` steps. */
  ghost function Recordings(s: State, steps: seq<Step>, n: nat): nat
    requires n <= |steps|
  {
    if n == 0 then 0
    else Recordings(s, steps, n - 1) + if StartsRecording(After(s, steps, n - 1), steps[n - 1]) then 1 else 0
  }

  /** No restart, and every roll sees the period keys in memory. */
  predicate SamePeriod(step: Step, day: string, week: u32) {
    !step.Restart? && (step.Start? ==> step.day == day && step.week == week)
  }

  predicate RollsNothing(pc: Pc, day: string, week: u32) {
    && !pc.ZeroDay? && !pc.ZeroWeek? && (pc.RollDay? ==> pc.day == day)
    && (pc.RollDay? || pc.DirtyDay? || pc.RollWeek? ==> pc.week == week)
  }

  /** The counts, with what running recordings have still to add, are the counts at the start and the recordings. */
  ghost predicate Ledger(s: State, from: Counts, recordings: nat) {
    && s.mem.day == from.day && s.mem.week == from.week
    && (forall t :: t in s.threads ==> RollsNothing(s.threads[t], from.day, from.week))
    && Adds(s.mem.dayCount + |Owing(s.threads, OwesDay)|, from.dayCount + recordings)
    && Adds(s.mem.weekCount + |Owing(s.threads, OwesWeek)|, from.weekCount + recordings)
  }

  /** Equal as 64-bit counters. */
  predicate Adds(a: nat, b: nat) { a % 0x1_0000_0000_0000_0000 == b % 0x1_0000_0000_0000_0000 }

  lemma IncrementAdds(n: u64, owing: nat, total: nat)
    requires owing > 0 && Adds(n + owing, total)
    ensures Adds(Increment(n) + (owing - 1), total)
  {
  }

  lemma ThreadRollsNothing(s: State, t: nat, from: Counts, recordings: nat)
    requires Ledger(s, from, recordings) && t in s.threads
    ensures var s' := AdvanceThread(s, t);
      && s'.mem.day == from.day && s'.mem.week == from.week
      && t in s'.threads && RollsNothing(s'.threads[t], from.day, from.week)
      && s'.threads == s.threads[t := s'.threads[t]]
  {
    hide Owing, Adds, Increment;
  }

  /** One access settles what it adds. */
  lemma ThreadAdds(s: State, t: nat, from: Counts)
    requires t in s.threads && RollsNothing(s.threads[t], from.day, from.week) && s.mem.day == from.day
    requires s.mem.week == from.week
    ensures var (s', pc) := (AdvanceThread(s, t), s.threads[t]);
      && t in s'.threads && OwesDay(s'.threads[t]) == (OwesDay(pc) && !pc.AddDay?)
      && OwesWeek(s'.threads[t]) == (OwesWeek(pc) && !pc.AddWeek?)
      && s'.mem.dayCount == (if pc.AddDay? then Increment(s.mem.dayCount) else s.mem.dayCount)
      && s'.mem.weekCount == (if pc.AddWeek? then Increment(s.mem.weekCount) else s.mem.weekCount)
  {
  }

  lemma ThreadKeepsLedger(s: State, t: nat, from: Counts, recordings: nat)
    requires Ledger(s, from, recordings) && t in s.threads
    ensures Ledger(AdvanceThread(s, t), from, recordings)
  {
    var pc := s.threads[t];
    ThreadRollsNothing(s, t, from, recordings);
    ThreadAdds(s, t, from);
    hide AdvanceThread, RollsNothing, AfterRoll;
    var pc' := AdvanceThread(s, t).threads[t];
    OwingAfter(s.threads, t, pc', OwesDay);
    OwingAfter(s.threads, t, pc', OwesWeek);
    if pc.AddDay? {
      assert t in Owing(s.threads, OwesDay);
      IncrementAdds(s.mem.dayCount, |Owing(s.threads, OwesDay)|, from.dayCount + recordings);
    }
    if pc.AddWeek? {
      assert t in Owing(s.threads, OwesWeek);
      IncrementAdds(s.mem.weekCount, |Owing(s.threads, OwesWeek)|, from.weekCount + recordings);
    }
    hide Owing, Adds, Increment;
  }

  lemma AddsOneMore(a: nat, b: nat)
    requires Adds(a, b)
    ensures Adds(a + 1, b + 1)
  {
  }

  lemma StartKeepsLedger(s: State, t: nat, pc: Pc, from: Counts, recordings: nat)
    requires Ledger(s, from, recordings) && CanStart(s, t) && RollsNothing(pc, from.day, from.week)
    requires OwesWeek(pc) ==> OwesDay(pc)
    ensures Ledger(s.(threads := s.threads[t := pc]), from, recordings + if OwesDay(pc) then 1 else 0)
  {
    OwingAfter(s.threads, t, pc, OwesDay);
    OwingAfter(s.threads, t, pc, OwesWeek);
    AddsOneMore(s.mem.dayCount + |Owing(s.threads, OwesDay)|, from.dayCount + recordings);
    AddsOneMore(s.mem.weekCount + |Owing(s.threads, OwesWeek)|, from.weekCount + recordings);
    hide Owing, Adds;
  }

  lemma ApplyKeepsLedger(s: State, step: Step, from: Counts, recordings: nat)
    requires Ledger(s, from, recordings) && SamePeriod(step, from.day, from.week)
    ensures Ledger(Apply(s, step), from, recordings + if StartsRecording(s, step) then 1 else 0)
  {
    hide Ledger, AdvanceThread;
    match step
    case Advance(t) => if t in s.threads { ThreadKeepsLedger(s, t, from, recordings); }
    case Flush(ok) => FlushKeepsLedger(s, ok, from, recordings);
    case Start(t, day, week, r) =>
      if CanStart(s, t) { StartKeepsLedger(s, t, RollDay(day, week, r), from, recordings); }
    case StartThrottled(t, r) => if CanStart(s, t) { StartKeepsLedger(s, t, AfterRoll(r), from, recordings); }
  }

  lemma FlushKeepsLedger(s: State, writeSucceeds: bool, from: Counts, recordings: nat)
    requires Ledger(s, from, recordings)
    ensures Ledger(AdvanceFlusher(s, writeSucceeds), from, recordings)
  {
  }

  lemma {:induction false} LedgerAlways(s: State, steps: seq<Step>, n: nat)
    requires n <= |steps| && s.threads == map[]
    requires forall i :: 0 <= i < |steps| ==> SamePeriod(steps[i], s.mem.day, s.mem.week)
    ensures Ledger(After(s, steps, n), s.mem, Recordings(s, steps, n))
  {
    if n == 0 {
      assert Owing(s.threads, OwesDay) == {} && Owing(s.threads, OwesWeek) == {};
    } else {
      LedgerAlways(s, steps, n - 1);
      hide Ledger, Apply;
      ApplyKeepsLedger(After(s, steps, n - 1), steps[n - 1], s.mem, Recordings(s, steps, n - 1));
    }
  }

  /** In every interleaving within one period: once nothing is in flight, both counters have gone up by the
      number of recordings that were started, modulo 2^64. */
  lemma NoBlockIsLost(s: State, steps: seq<Step>, n: nat)
    requires n <= |steps| && s.threads == map[]
    requires forall i :: 0 <= i < |steps| ==> SamePeriod(steps[i], s.mem.day, s.mem.week)
    ensures var (r, more) := (After(s, steps, n), Recordings(s, steps, n));
      (forall t :: t in r.threads ==> r.threads[t].Done?) ==>
        && r.mem.dayCount == (s.mem.dayCount + more) % 0x1_0000_0000_0000_0000
        && r.mem.weekCount == (s.mem.weekCount + more) % 0x1_0000_0000_0000_0000
  {
    hide *;
    LedgerAlways(s, steps, n);
    SettledLedger(After(s, steps, n), s.mem, Recordings(s, steps, n));
  }

  lemma SettledLedger(r: State, from: Counts, recordings: nat)
    requires Ledger(r, from, recordings)
    ensures (forall t :: t in r.threads ==> r.threads[t].Done?) ==>
      && r.mem.dayCount == (from.dayCount + recordings) % 0x1_0000_0000_0000_0000
      && r.mem.weekCount == (from.weekCount + recordings) % 0x1_0000_0000_0000_0000
  {
    if forall t :: t in r.threads ==> r.threads[t].Done? {
      assert Owing(r.threads, OwesDay) == {} && Owing(r.threads, OwesWeek) == {};
    }
  }

  // ---------------------------------------------------------------- calls nothing interrupts

  /** The increments of one recording, run through: both counters one up, dirty set. */
  lemma RecordRuns(s: State, t: nat)
    requires t in s.threads && s.threads[t] == AddDay
    ensures var r := AdvanceThread(AdvanceThread(AdvanceThread(s, t), t), t);
      r == s.(mem := s.mem.(dayCount := Increment(s.mem.dayCount), weekCount := Increment(s.mem.weekCount)),
              dirty := true, threads := s.threads[t := Done])
  {
    var a := AdvanceThread(s, t);
    var b := AdvanceThread(a, t);
    assert a.threads[t] == AddWeek && b.threads[t] == MarkDirty;
    assert b.threads[t := Done] == s.threads[t := Done];
  }

  /** A roll, run through: each counter whose key changed restarts at zero and marks the change. */
  lemma RollRuns(s: State, t: nat, day: string, week: u32, recording: bool)
    requires t in s.threads && s.threads[t] == RollDay(day, week, recording)
    ensures var a := AdvanceThread(s, t);
      var b := if s.mem.day != day then AdvanceThread(AdvanceThread(a, t), t) else a;
      var c := AdvanceThread(b, t);
      var r := if s.mem.week != week then AdvanceThread(AdvanceThread(c, t), t) else c;
      r == s.(mem := Load(Some(s.mem), day, week), dirty := s.dirty || s.mem.day != day || s.mem.week != week,
              threads := s.threads[t := AfterRoll(recording)])
  {
    var a := AdvanceThread(s, t);
    var b := if s.mem.day != day then AdvanceThread(AdvanceThread(a, t), t) else a;
    assert b.threads == s.threads[t := RollWeek(week, recording)];
    var c := AdvanceThread(b, t);
    var r := if s.mem.week != week then AdvanceThread(AdvanceThread(c, t), t) else c;
    assert r.threads == s.threads[t := AfterRoll(recording)];
  }

  /** A flush of dirty counters, run through: on success the file holds memory and the flag is
      clear, on failure the flag is set again and the file untouched. */
  lemma FlushRuns(s: State, writeSucceeds: bool)
    requires s.flusher.Idle? && s.dirty
    ensures var f := (x: State) => AdvanceFlusher(x, writeSucceeds);
      var w := f(f(f(f(f(f(s))))));
      (if writeSucceeds then w else f(w)) ==
        if writeSucceeds then s.(dirty := false, disk := Some(s.mem)) else s
  {
  }

  // ---------------------------------------------------------------- the object, one call at a time

  class Stats {
    var mem: Counts
    var dirty: bool
    var file: Option<Counts>
    var lastPeriodCheck: nat

    predicate Valid()
      reads this
    {
      !dirty ==> Consistent(file, mem)
    }

    /** Load the file; the first roll check always runs. Times are in seconds since `start - 2`. */
    constructor (file: Option<Counts>, day: string, week: u32)
      ensures Valid() && mem == Load(file, day, week) && !dirty && this.file == file && lastPeriodCheck == 0
    {
      this.file := file;
      mem := Load(file, day, week);
      dirty := false;
      lastPeriodCheck := 0;
    }

    /** Zero a counter whose period key has changed, at most once a second. */
    method RollIfNewPeriod(day: string, week: u32, now: nat)
      requires Valid()
      modifies this`mem, this`dirty, this`lastPeriodCheck
      ensures Valid()
      ensures now < old(lastPeriodCheck) + 1 ==>
        mem == old(mem) && dirty == old(dirty) && lastPeriodCheck == old(lastPeriodCheck)
      ensures now >= old(lastPeriodCheck) + 1 ==>
        && mem == Load(Some(old(mem)), day, week) && lastPeriodCheck == now
        && dirty == (old(dirty) || old(mem.day) != day || old(mem.week) != week)
    {
      if now < lastPeriodCheck + 1 { return; }
      lastPeriodCheck := now;
      if mem.day != day {
        mem := mem.(day := day, dayCount := 0);
        dirty := true;
      }
      if mem.week != week {
        mem := mem.(week := week, weekCount := 0);
        dirty := true;
      }
    }

    method RecordBlock(day: string, week: u32, now: nat)
      requires Valid()
      modifies this`mem, this`dirty, this`lastPeriodCheck
      ensures Valid() && dirty
      ensures var m := if now < old(lastPeriodCheck) + 1 then old(mem) else Load(Some(old(mem)), day, week);
        mem == m.(dayCount := Increment(m.dayCount), weekCount := Increment(m.weekCount))
    {
      RollIfNewPeriod(day, week, now);
      mem := mem.(dayCount := Increment(mem.dayCount));
      mem := mem.(weekCount := Increment(mem.weekCount));
      dirty := true;
    }

    /** Write the counters if they changed; a failed write leaves them dirty. */
    method FlushIfDirty(writeSucceeds: bool)
      requires Valid()
      modifies this`dirty, this`file
      ensures Valid() && mem == old(mem)
      ensures dirty == (old(dirty) && !writeSucceeds)
      ensures file == if old(dirty) && writeSucceeds then Some(mem) else old(file)
    {
      if !dirty { return; }
      dirty := false;
      if writeSucceeds {
        file := Some(mem);
      } else {
        dirty := true;
      }
    }
  }
}
