/** The daily synchronisation of one market series: when it runs, what range it
    asks for, and what a failed attempt costs. Dates are day numbers, times of day
    seconds; what the source answers is an input. */
module MarketJobs {
  import opened Outcomes

  datatype Schedule = Schedule(closeTime: int, correctionDays: int, paddingDays: int)

  datatype Moment = Moment(date: int, time: int)

  /** The state of one job: the first event its series must reach back to, whether
      the series is active, and the last day on record. */
  datatype Job = Job(firstEvent: int, active: bool, lastRun: Option<int>)

  datatype Answer = Synced | SourceUnreachable | SourceRefused | OtherFailure

  datatype Window = Window(start: int, end: int)

  /** One request that was made, and what came of it. */
  datatype Attempt = Attempt(window: Window, answer: Answer, scheduled: bool)

  function Days(n: int): (days: nat)
    ensures days == n || (n < 0 && days == 0)
  {
    if n < 0 then 0 else n
  }

  predicate ShouldRun(schedule: Schedule, job: Job, now: Moment) {
    job.active && now.time >= schedule.closeTime && job.lastRun != Some(now.date)
  }

  /** The range to ask for: from the first event while nothing is on record, from
      the rolling correction boundary afterwards. */
  function WindowOf(schedule: Schedule, job: Job, today: int): Option<Window> {
    if !job.active then None
    else
      var start :=
        if job.lastRun.Some? then today - Days(schedule.correctionDays)
        else job.firstEvent - Days(schedule.paddingDays);
      Some(Window(if start < today then start else today, today))
  }

  /** A source that is down or refuses has used up the scheduled day; any other
      failure leaves the day to the next tick. */
  predicate SpendsTheDay(answer: Answer) {
    answer.Synced? || answer.SourceUnreachable? || answer.SourceRefused?
  }

  /** Whether an attempt puts its day on record. A manual run does so only when it succeeds. */
  predicate Records(attempt: Attempt) {
    if attempt.scheduled then SpendsTheDay(attempt.answer) else attempt.answer.Synced?
  }

  datatype Step =
    | Scheduled(now: Moment, answer: Answer)
    | Manual(now: Moment, answer: Answer)
    | SetActive(active: bool)
    | SetFirstEvent(date: int)

  function Attempted(schedule: Schedule, job: Job, step: Step): Option<Attempt> {
    match step
    case Scheduled(now, answer) =>
      if !ShouldRun(schedule, job, now) then None
      else
        (match WindowOf(schedule, job, now.date)
         case Some(window) => Some(Attempt(window, answer, true))
         case None => None)
    case Manual(now, answer) =>
      (match WindowOf(schedule, job, now.date)
       case Some(window) => Some(Attempt(window, answer, false))
       case None => None)
    case _ => None
  }

  function Next(schedule: Schedule, job: Job, step: Step): Job {
    match step
    case SetActive(active) => job.(active := active)
    case SetFirstEvent(date) => job.(firstEvent := date)
    case _ =>
      match Attempted(schedule, job, step)
      case Some(attempt) => if Records(attempt) then job.(lastRun := Some(step.now.date)) else job
      case None => job
  }

  /** A registered job; the fields the scheduler changes are updated in place. */
  class MarketSyncJob {
    const schedule: Schedule
    var firstEvent: int
    var active: bool
    var lastRun: Option<int>

    constructor (schedule: Schedule, firstEvent: int)
      ensures this.schedule == schedule && State() == Never(firstEvent)
    {
      this.schedule := schedule;
      this.firstEvent := firstEvent;
      active := true;
      lastRun := None;
    }

    ghost function State(): Job
      reads this
    {
      Job(firstEvent, active, lastRun)
    }

    method ChangeActive(active: bool)
      modifies this`active
      ensures State() == Next(schedule, old(State()), SetActive(active))
    {
      this.active := active;
    }

    method ChangeFirstEvent(date: int)
      modifies this`firstEvent
      ensures State() == Next(schedule, old(State()), SetFirstEvent(date))
    {
      firstEvent := date;
    }

    /** Run if the day's window is open and the day is not spent. */
    method RunIfDue(now: Moment, answer: Answer) returns (attempt: Option<Attempt>)
      modifies this`lastRun
      ensures attempt == Attempted(schedule, old(State()), Scheduled(now, answer))
      ensures State() == Next(schedule, old(State()), Scheduled(now, answer))
    {
      if !(active && now.time >= schedule.closeTime && lastRun != Some(now.date)) {
        return None;
      }
      var window := WindowOf(schedule, Job(firstEvent, active, lastRun), now.date);
      if window.None? {
        return None;
      }
      if SpendsTheDay(answer) {
        lastRun := Some(now.date);
      }
      attempt := Some(Attempt(window.value, answer, true));
    }

    /** Run at the owner's request, whatever the time of day. */
    method RunNow(now: Moment, answer: Answer) returns (attempt: Option<Attempt>)
      modifies this`lastRun
      ensures attempt == Attempted(schedule, old(State()), Manual(now, answer))
      ensures State() == Next(schedule, old(State()), Manual(now, answer))
    {
      var window := WindowOf(schedule, Job(firstEvent, active, lastRun), now.date);
      if window.None? {
        return None;
      }
      if answer.Synced? {
        lastRun := Some(now.date);
      }
      attempt := Some(Attempt(window.value, answer, false));
    }
  }

  // ---- Whole runs ---------------------------------------------------------------------

  function Never(firstEvent: int): Job {
    Job(firstEvent, true, None)
  }

  function JobAfter(schedule: Schedule, job: Job, steps: seq<Step>): Job {
    if steps == [] then job
    else Next(schedule, JobAfter(schedule, job, steps[..|steps| - 1]), steps[|steps| - 1])
  }

  /** Every attempt of a run, in order. */
  function LogOf(schedule: Schedule, job: Job, steps: seq<Step>): seq<Attempt> {
    if steps == [] then []
    else
      var before := LogOf(schedule, job, steps[..|steps| - 1]);
      match Attempted(schedule, JobAfter(schedule, job, steps[..|steps| - 1]), steps[|steps| - 1])
      case Some(attempt) => before + [attempt]
      case None => before
  }

  predicate IsTimed(step: Step) {
    step.Scheduled? || step.Manual?
  }

  /** The clock does not go back. */
  ghost predicate InTime(steps: seq<Step>) {
    forall i, j | 0 <= i < j < |steps| && IsTimed(steps[i]) && IsTimed(steps[j]) ::
      steps[i].now.date <= steps[j].now.date
  }

  function Day(attempt: Attempt): int {
    attempt.window.end
  }

  /** The day of the last attempt on record. */
  function LastRecorded(log: seq<Attempt>): Option<int> {
    if log == [] then None
    else if Records(log[|log| - 1]) then Some(Day(log[|log| - 1]))
    else LastRecorded(log[..|log| - 1])
  }

  /** What a run's log always looks like. */
  ghost predicate Kept(log: seq<Attempt>, correction: nat) {
    && (forall i | 0 <= i < |log| :: log[i].window.start <= Day(log[i]))
    && (forall i, j | 0 <= i < j < |log| :: Day(log[i]) <= Day(log[j]))
    && (forall i, j | 0 <= i < j < |log| && Records(log[i]) :: log[j].window.start == Day(log[j]) - correction)
    && (forall i, j | 0 <= i < j < |log| && Records(log[i]) && log[j].scheduled :: Day(log[i]) < Day(log[j]))
  }

  lemma {:induction false} LastRecordedIs(log: seq<Attempt>)
    ensures LastRecorded(log).None? <==> forall i | 0 <= i < |log| :: !Records(log[i])
    ensures LastRecorded(log).Some? ==>
              exists i | 0 <= i < |log| :: Records(log[i]) && Day(log[i]) == LastRecorded(log).value
  {
    if log != [] {
      LastRecordedIs(log[..|log| - 1]);
    }
  }

  lemma {:induction false} LastRecordedIsLatest(log: seq<Attempt>, i: nat, correction: nat)
    requires Kept(log, correction) && i < |log| && Records(log[i])
    ensures LastRecorded(log).Some? && Day(log[i]) <= LastRecorded(log).value
  {
    if !Records(log[|log| - 1]) {
      assert forall k | 0 <= k < |log| - 1 :: log[..|log| - 1][k] == log[k];
      LastRecordedIsLatest(log[..|log| - 1], i, correction);
    }
  }

  ghost predicate NotAfter(log: seq<Attempt>, date: int) {
    forall i | 0 <= i < |log| :: Day(log[i]) <= date
  }

  /** The attempts of a run happen on the days of its steps. */
  lemma {:induction false} LogIsDated(schedule: Schedule, job: Job, steps: seq<Step>, date: int)
    requires forall i | 0 <= i < |steps| && IsTimed(steps[i]) :: steps[i].now.date <= date
    ensures NotAfter(LogOf(schedule, job, steps), date)
  {
    if steps != [] {
      var init := steps[..|steps| - 1];
      assert forall i | 0 <= i < |init| :: init[i] == steps[i];
      LogIsDated(schedule, job, init, date);
    }
  }

  lemma {:induction false} KeptSnoc(log: seq<Attempt>, attempt: Attempt, correction: nat)
    requires Kept(log, correction) && NotAfter(log, Day(attempt)) && attempt.window.start <= Day(attempt)
    requires LastRecorded(log).Some? ==> attempt.window.start == Day(attempt) - correction
    requires attempt.scheduled ==> LastRecorded(log) != Some(Day(attempt))
    ensures Kept(log + [attempt], correction)
  {
    LastRecordedIs(log);
    var extended := log + [attempt];
    forall i | 0 <= i < |log| && Records(log[i])
      ensures attempt.window.start == Day(attempt) - correction
      ensures attempt.scheduled ==> Day(log[i]) < Day(attempt)
    {
      LastRecordedIsLatest(log, i, correction);
      var last :| 0 <= last < |log| && Records(log[last]) && Day(log[last]) == LastRecorded(log).value;
      assert Day(log[last]) <= Day(attempt);
    }
    assert forall i | 0 <= i < |log| :: extended[i] == log[i];
  }

  lemma {:induction false} LastRecordedSnoc(log: seq<Attempt>, attempt: Attempt)
    ensures LastRecorded(log + [attempt]) == if Records(attempt) then Some(Day(attempt)) else LastRecorded(log)
  {
    assert (log + [attempt])[..|log|] == log;
  }

  /** The day the job remembers is the day of the last attempt on record. */
  lemma {:induction false} JobRemembersLastDay(schedule: Schedule, firstEvent: int, steps: seq<Step>)
    ensures JobAfter(schedule, Never(firstEvent), steps).lastRun == LastRecorded(LogOf(schedule, Never(firstEvent), steps))
  {
    if steps != [] {
      var init, last := steps[..|steps| - 1], steps[|steps| - 1];
      JobRemembersLastDay(schedule, firstEvent, init);
      var attempt := Attempted(schedule, JobAfter(schedule, Never(firstEvent), init), last);
      if attempt.Some? {
        LastRecordedSnoc(LogOf(schedule, Never(firstEvent), init), attempt.value);
      }
    }
  }

  /** Every run keeps its log: days do not go back, no scheduled attempt falls on a
      day already on record, and once a day is on record every later range starts
      at the correction boundary. */
  lemma {:induction false} RunKeepsLog(schedule: Schedule, firstEvent: int, steps: seq<Step>)
    requires InTime(steps)
    ensures Kept(LogOf(schedule, Never(firstEvent), steps), Days(schedule.correctionDays))
  {
    if steps != [] {
      var init, last := steps[..|steps| - 1], steps[|steps| - 1];
      assert forall i | 0 <= i < |init| :: init[i] == steps[i];
      RunKeepsLog(schedule, firstEvent, init);
      JobRemembersLastDay(schedule, firstEvent, init);
      var log := LogOf(schedule, Never(firstEvent), init);
      var attempt := Attempted(schedule, JobAfter(schedule, Never(firstEvent), init), last);
      if attempt.Some? {
        LogIsDated(schedule, Never(firstEvent), init, last.now.date);
        KeptSnoc(log, attempt.value, Days(schedule.correctionDays));
      }
    }
  }

  /** A day is spent by scheduled runs at most once, and not at all after a manual
      run that succeeded on it. */
  lemma {:induction false} ADayIsSpentOnce(schedule: Schedule, firstEvent: int, steps: seq<Step>, i: nat, j: nat)
    requires InTime(steps)
    requires i < j < |LogOf(schedule, Never(firstEvent), steps)|
    requires Records(LogOf(schedule, Never(firstEvent), steps)[i])
    requires LogOf(schedule, Never(firstEvent), steps)[j].scheduled
    ensures Day(LogOf(schedule, Never(firstEvent), steps)[i]) < Day(LogOf(schedule, Never(firstEvent), steps)[j])
  {
    RunKeepsLog(schedule, firstEvent, steps);
  }

  // ---- What the fetched ranges cover ---------------------------------------------------

  /** The ranges that were fetched: those of the attempts that succeeded. */
  function Fetched(log: seq<Attempt>): seq<Window> {
    if log == [] then []
    else
      var before := Fetched(log[..|log| - 1]);
      if log[|log| - 1].answer.Synced? then before + [log[|log| - 1].window] else before
  }

  predicate Within(window: Window, day: int) {
    window.start <= day <= window.end
  }

  ghost predicate Covered(windows: seq<Window>, day: int) {
    exists k | 0 <= k < |windows| :: Within(windows[k], day)
  }

  ghost predicate CoversAll(windows: seq<Window>, from: int, until: int) {
    forall day | from <= day <= until :: Covered(windows, day)
  }

  /** Ranges whose ends do not go back and which, from the second on, reach back
      exactly the correction window. */
  ghost predicate Rolling(windows: seq<Window>, correction: nat) {
    && (forall k | 0 <= k < |windows| :: windows[k].start <= windows[k].end)
    && (forall k, l | 0 <= k < l < |windows| :: windows[k].end <= windows[l].end)
    && (forall k | 0 < k < |windows| :: windows[k].start == windows[k].end - correction)
  }

  /** No two neighbouring ranges end further apart than the later one reaches back. */
  ghost predicate NoGap(windows: seq<Window>, correction: nat) {
    forall k | 0 < k < |windows| :: windows[k].end - windows[k - 1].end <= correction + 1
  }

  ghost predicate ReachesBackTo(windows: seq<Window>, day: int) {
    exists k | 0 <= k < |windows| :: windows[k].start <= day
  }

  lemma {:induction false} FetchedAreLogged(log: seq<Attempt>, k: nat) returns (i: nat)
    requires k < |Fetched(log)|
    ensures i < |log| && log[i].answer.Synced? && log[i].window == Fetched(log)[k]
    ensures k > 0 ==> exists j | 0 <= j < i :: log[j].answer.Synced?
  {
    var init, last := log[..|log| - 1], log[|log| - 1];
    if k < |Fetched(init)| {
      i := FetchedAreLogged(init, k);
      assert forall j | 0 <= j < |init| :: log[j] == init[j];
    } else {
      i := |log| - 1;
      if k > 0 {
        var j := FetchedAreLogged(init, 0);
        assert log[j].answer.Synced?;
      }
    }
  }

  lemma {:induction false} FetchedIsRolling(log: seq<Attempt>, correction: nat)
    requires Kept(log, correction)
    ensures Rolling(Fetched(log), correction)
  {
    if log != [] {
      var init, last := log[..|log| - 1], log[|log| - 1];
      assert forall i | 0 <= i < |init| :: init[i] == log[i];
      FetchedIsRolling(init, correction);
      if last.answer.Synced? {
        forall k | 0 <= k < |Fetched(init)|
          ensures Fetched(init)[k].end <= last.window.end
        {
          var i := FetchedAreLogged(init, k);
          assert log[i] == init[i] && Day(log[i]) <= Day(log[|log| - 1]);
        }
        if Fetched(init) != [] {
          var i := FetchedAreLogged(init, 0);
          assert log[i] == init[i] && Records(log[i]);
          assert last.window.start == last.window.end - correction;
        }
      }
    }
  }

  /** From a range that reaches back to a day on, ranges without a gap cover every day. */
  lemma {:induction false} NoGapCovers(windows: seq<Window>, correction: nat, k: nat, day: int)
    requires Rolling(windows, correction) && NoGap(windows, correction)
    requires k < |windows| && windows[k].start <= day <= windows[|windows| - 1].end
    ensures Covered(windows, day)
    decreases |windows| - k
  {
    if day <= windows[k].end {
      assert Within(windows[k], day);
    } else {
      assert windows[k + 1].end - windows[k + 1 - 1].end <= correction + 1;
      NoGapCovers(windows, correction, k + 1, day);
    }
  }

  /** The day after a gap opens is in no range. */
  lemma {:induction false} GapIsUncovered(windows: seq<Window>, correction: nat, k: nat)
    requires Rolling(windows, correction) && 0 < k < |windows|
    ensures windows[k].end - windows[k - 1].end > correction + 1 ==> !Covered(windows, windows[k - 1].end + 1)
  {
    forall l | 0 <= l < |windows|
      ensures windows[k].end - windows[k - 1].end > correction + 1 ==> !Within(windows[l], windows[k - 1].end + 1)
    {
    }
  }

  /** The fetched ranges cover every day from a first day to the last success exactly
      when one of them reaches back to that day and no two neighbours leave a gap. */
  lemma {:induction false} CoveredIffNoGap(windows: seq<Window>, correction: nat, from: int)
    requires Rolling(windows, correction) && windows != [] && from <= windows[0].end
    ensures CoversAll(windows, from, windows[|windows| - 1].end)
       <==> ReachesBackTo(windows, from) && NoGap(windows, correction)
  {
    var until := windows[|windows| - 1].end;
    if CoversAll(windows, from, until) {
      assert Covered(windows, from);
      forall k | 0 < k < |windows|
        ensures windows[k].end - windows[k - 1].end <= correction + 1
      {
        GapIsUncovered(windows, correction, k);
        assert windows[k - 1].end + 1 <= until ==> Covered(windows, windows[k - 1].end + 1);
      }
    }
    if ReachesBackTo(windows, from) && NoGap(windows, correction) {
      var k :| 0 <= k < |windows| && windows[k].start <= from;
      forall day | from <= day <= until
        ensures Covered(windows, day)
      {
        NoGapCovers(windows, correction, k, day);
      }
    }
  }

  /** The same of every run of the job. */
  lemma {:induction false} RunCoversIff(schedule: Schedule, firstEvent: int, steps: seq<Step>, from: int)
    requires InTime(steps)
    requires Fetched(LogOf(schedule, Never(firstEvent), steps)) != []
    requires from <= Fetched(LogOf(schedule, Never(firstEvent), steps))[0].end
    ensures var windows := Fetched(LogOf(schedule, Never(firstEvent), steps));
      CoversAll(windows, from, windows[|windows| - 1].end)
      <==> ReachesBackTo(windows, from) && NoGap(windows, Days(schedule.correctionDays))
  {
    RunKeepsLog(schedule, firstEvent, steps);
    FetchedIsRolling(LogOf(schedule, Never(firstEvent), steps), Days(schedule.correctionDays));
    CoveredIffNoGap(Fetched(LogOf(schedule, Never(firstEvent), steps)), Days(schedule.correctionDays), from);
  }

  // ---- What a failed first attempt costs -------------------------------------------------

  /** The first attempt that put its day on record. */
  function FirstRecorded(log: seq<Attempt>): Option<Attempt> {
    if log == [] then None
    else
      match FirstRecorded(log[..|log| - 1])
      case Some(attempt) => Some(attempt)
      case None => if Records(log[|log| - 1]) then Some(log[|log| - 1]) else None
  }

  lemma {:induction false} FirstRecordedIs(log: seq<Attempt>)
    ensures FirstRecorded(log).None? ==> forall i | 0 <= i < |log| :: !Records(log[i])
    ensures FirstRecorded(log).Some? ==>
              exists i | 0 <= i < |log| :: log[i] == FirstRecorded(log).value && Records(log[i])
                                           && forall j | 0 <= j < i :: !Records(log[j])
  {
    if log != [] {
      FirstRecordedIs(log[..|log| - 1]);
    }
  }

  lemma {:induction false} SyncedIsFetched(log: seq<Attempt>, i: nat)
    requires i < |log| && log[i].answer.Synced?
    ensures log[i].window in Fetched(log)
  {
    if i < |log| - 1 {
      SyncedIsFetched(log[..|log| - 1], i);
    }
  }

  lemma {:induction false} LaterRangesStartLate(log: seq<Attempt>, correction: nat, first: nat, i: nat)
    requires Kept(log, correction) && first < |log| && i < |log| && Records(log[first])
    ensures first < i ==> log[i].window.start >= Day(log[first]) - correction
  {
  }

  /** Days older than the correction window of the first recorded attempt are fetched
      by that attempt or never: if it succeeded and reached back to them they are
      covered, and if it failed no later run of any kind asks for them again. */
  lemma {:induction false} InitialHistoryIsFetchedOnce(log: seq<Attempt>, correction: nat, day: int)
    requires Kept(log, correction) && FirstRecorded(log).Some?
    requires day < Day(FirstRecorded(log).value) - correction
    ensures Covered(Fetched(log), day)
       <==> FirstRecorded(log).value.answer.Synced? && FirstRecorded(log).value.window.start <= day
  {
    FirstRecordedIs(log);
    var first :| 0 <= first < |log| && log[first] == FirstRecorded(log).value && Records(log[first])
                 && forall j | 0 <= j < first :: !Records(log[j]);
    if log[first].answer.Synced? && log[first].window.start <= day {
      SyncedIsFetched(log, first);
      var k :| 0 <= k < |Fetched(log)| && Fetched(log)[k] == log[first].window;
      assert Within(Fetched(log)[k], day);
    }
    if Covered(Fetched(log), day) {
      var k :| 0 <= k < |Fetched(log)| && Within(Fetched(log)[k], day);
      var i := FetchedAreLogged(log, k);
      assert Records(log[i]);
      LaterRangesStartLate(log, correction, first, i);
    }
  }

  /** The first events a series is told of are no later than a given day. */
  ghost predicate KnownSince(firstEvent: int, steps: seq<Step>, day: int) {
    && firstEvent <= day
    && forall i | 0 <= i < |steps| && steps[i].SetFirstEvent? :: steps[i].date <= day
  }

  lemma {:induction false} FirstEventStaysKnown(schedule: Schedule, firstEvent: int, steps: seq<Step>, day: int)
    requires KnownSince(firstEvent, steps, day)
    ensures JobAfter(schedule, Never(firstEvent), steps).firstEvent <= day
  {
    if steps != [] {
      var init := steps[..|steps| - 1];
      assert forall i | 0 <= i < |init| :: init[i] == steps[i];
      FirstEventStaysKnown(schedule, firstEvent, init, day);
    }
  }

  lemma {:induction false} FirstRecordedSnoc(log: seq<Attempt>, attempt: Attempt)
    ensures FirstRecorded(log + [attempt]) ==
            if FirstRecorded(log).Some? then FirstRecorded(log) else if Records(attempt) then Some(attempt) else None
  {
    assert (log + [attempt])[..|log|] == log;
  }

  lemma {:induction false} NothingRecorded(log: seq<Attempt>)
    requires FirstRecorded(log).None?
    ensures LastRecorded(log).None?
  {
    FirstRecordedIs(log);
    LastRecordedIs(log);
  }

  lemma {:induction false} FirstAttemptReachesBack(schedule: Schedule, firstEvent: int, steps: seq<Step>, day: int)
    requires InTime(steps) && KnownSince(firstEvent, steps, day)
    ensures FirstRecorded(LogOf(schedule, Never(firstEvent), steps)).Some? ==>
              FirstRecorded(LogOf(schedule, Never(firstEvent), steps)).value.window.start <= day - Days(schedule.paddingDays)
  {
    if steps != [] {
      var init, last := steps[..|steps| - 1], steps[|steps| - 1];
      assert forall i | 0 <= i < |init| :: init[i] == steps[i];
      FirstAttemptReachesBack(schedule, firstEvent, init, day);
      var log := LogOf(schedule, Never(firstEvent), init);
      var job := JobAfter(schedule, Never(firstEvent), init);
      var attempt := Attempted(schedule, job, last);
      if attempt.Some? {
        FirstRecordedSnoc(log, attempt.value);
        FirstEventStaysKnown(schedule, firstEvent, init, day);
        JobRemembersLastDay(schedule, firstEvent, init);
        if FirstRecorded(log).None? {
          NothingRecorded(log);
        }
      }
    }
  }

  /** The promise of the schedule, over every run: if the first attempt on record
      succeeded and neighbouring successes leave no gap, every day from the padded
      first event to the last success has been fetched. */
  lemma {:induction false} HistoryIsFetched(schedule: Schedule, firstEvent: int, steps: seq<Step>, event: int, day: int)
    requires InTime(steps) && KnownSince(firstEvent, steps, event)
    requires var log := LogOf(schedule, Never(firstEvent), steps);
      && FirstRecorded(log).Some? && FirstRecorded(log).value.answer.Synced?
      && NoGap(Fetched(log), Days(schedule.correctionDays))
      && Fetched(log) != []
      && event - Days(schedule.paddingDays) <= day <= Fetched(log)[|Fetched(log)| - 1].end
    ensures Covered(Fetched(LogOf(schedule, Never(firstEvent), steps)), day)
  {
    var log := LogOf(schedule, Never(firstEvent), steps);
    RunKeepsLog(schedule, firstEvent, steps);
    FetchedIsRolling(log, Days(schedule.correctionDays));
    FirstAttemptReachesBack(schedule, firstEvent, steps, event);
    FirstRecordedIs(log);
    var first :| 0 <= first < |log| && log[first] == FirstRecorded(log).value;
    SyncedIsFetched(log, first);
    var k :| 0 <= k < |Fetched(log)| && Fetched(log)[k] == log[first].window;
    NoGapCovers(Fetched(log), Days(schedule.correctionDays), k, day);
  }

  /** A series whose first event is day 0, first run on day 100 against a source that
      is down: whatever follows, no day before day 79 is ever fetched. */
  lemma {:induction false} FailedFirstAttemptLosesHistory(later: seq<Step>, day: int)
    requires InTime([Scheduled(Moment(100, 70000), SourceUnreachable)] + later) && day < 79
    ensures !Covered(Fetched(LogOf(Schedule(68400, 21, 7), Never(0),
                                   [Scheduled(Moment(100, 70000), SourceUnreachable)] + later)), day)
  {
    var schedule := Schedule(68400, 21, 7);
    var failed := Scheduled(Moment(100, 70000), SourceUnreachable);
    var steps := [failed] + later;
    RunKeepsLog(schedule, 0, steps);
    FirstStepIsRecorded(schedule, 0, failed, later);
    InitialHistoryIsFetchedOnce(LogOf(schedule, Never(0), steps), 21, day);
  }

  lemma {:induction false} FirstStepIsRecorded(schedule: Schedule, firstEvent: int, step: Step, later: seq<Step>)
    requires Attempted(schedule, Never(firstEvent), step).Some?
    requires Records(Attempted(schedule, Never(firstEvent), step).value)
    ensures FirstRecorded(LogOf(schedule, Never(firstEvent), [step] + later)) == Attempted(schedule, Never(firstEvent), step)
    decreases |later|
  {
    if later == [] {
      assert [step] + later == [] + [step];
      LogSnoc(schedule, Never(firstEvent), [], step);
      FirstRecordedSnoc([], Attempted(schedule, Never(firstEvent), step).value);
    } else {
      var init, last := later[..|later| - 1], later[|later| - 1];
      assert [step] + later == ([step] + init) + [last];
      FirstStepIsRecorded(schedule, firstEvent, step, init);
      LogSnoc(schedule, Never(firstEvent), [step] + init, last);
      var attempt := Attempted(schedule, JobAfter(schedule, Never(firstEvent), [step] + init), last);
      if attempt.Some? {
        FirstRecordedSnoc(LogOf(schedule, Never(firstEvent), [step] + init), attempt.value);
      }
    }
  }

  lemma {:induction false} LogSnoc(schedule: Schedule, job: Job, steps: seq<Step>, step: Step)
    ensures var attempt := Attempted(schedule, JobAfter(schedule, job, steps), step);
      LogOf(schedule, job, steps + [step]) ==
      if attempt.Some? then LogOf(schedule, job, steps) + [attempt.value] else LogOf(schedule, job, steps)
  {
    assert (steps + [step])[..|steps|] == steps;
  }
}
