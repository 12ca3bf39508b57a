/** When a market job asks its source, and for what: said over whole runs, in times,
    answers and days. */
module MarketRequests {
  import opened Outcomes
  import opened MarketJobs

  // ---- What the steps have set ---------------------------------------------------------

  /** The last word on whether the series is active; a new job is. */
  function ActiveAfter(steps: seq<Step>): bool {
    if steps == [] then true
    else
      match steps[|steps| - 1]
      case SetActive(active) => active
      case _ => ActiveAfter(steps[..|steps| - 1])
  }

  /** The last word on the first event. */
  function FirstEventAfter(firstEvent: int, steps: seq<Step>): int {
    if steps == [] then firstEvent
    else
      match steps[|steps| - 1]
      case SetFirstEvent(date) => date
      case _ => FirstEventAfter(firstEvent, steps[..|steps| - 1])
  }

  lemma {:induction false} JobIsAsSet(schedule: Schedule, firstEvent: int, steps: seq<Step>)
    ensures JobAfter(schedule, Never(firstEvent), steps).active == ActiveAfter(steps)
    ensures JobAfter(schedule, Never(firstEvent), steps).firstEvent == FirstEventAfter(firstEvent, steps)
  {
    if steps != [] {
      JobIsAsSet(schedule, firstEvent, steps[..|steps| - 1]);
    }
  }

  // ---- What the log says -----------------------------------------------------------------

  /** The attempt put its day on record: it succeeded, or the schedule made it and the
      source was down or refused. Any other failure leaves the day to the next tick. */
  predicate IsSpent(attempt: Attempt) {
    attempt.answer == Synced || (attempt.scheduled && (attempt.answer == SourceUnreachable || attempt.answer == SourceRefused))
  }

  predicate SpentOn(attempt: Attempt, date: int) {
    IsSpent(attempt) && attempt.window.end == date
  }

  ghost predicate AnySpent(log: seq<Attempt>) {
    exists i | 0 <= i < |log| :: IsSpent(log[i])
  }

  ghost predicate AnySpentOn(log: seq<Attempt>, date: int) {
    exists i | 0 <= i < |log| :: SpentOn(log[i], date)
  }

  /** The last attempt that put a day on record put this one. */
  ghost predicate LastSpentOn(log: seq<Attempt>, date: int) {
    exists i | 0 <= i < |log| && SpentOn(log[i], date) :: forall j | i < j < |log| :: !IsSpent(log[j])
  }

  lemma {:induction false} LastSpentSnoc(log: seq<Attempt>, attempt: Attempt, date: int)
    ensures IsSpent(attempt) ==> (LastSpentOn(log + [attempt], date) <==> attempt.window.end == date)
    ensures !IsSpent(attempt) ==> (LastSpentOn(log + [attempt], date) <==> LastSpentOn(log, date))
  {
    var longer := log + [attempt];
    assert longer[|log|] == attempt;
    assert forall i | 0 <= i < |log| :: longer[i] == log[i];
    if !IsSpent(attempt) && LastSpentOn(log, date) {
      var i :| 0 <= i < |log| && SpentOn(log[i], date) && forall j | i < j < |log| :: !IsSpent(log[j]);
      assert SpentOn(longer[i], date);
    }
  }

  lemma {:induction false} LastRecordedIsLastSpent(log: seq<Attempt>, date: int)
    ensures LastRecorded(log) == Some(date) <==> LastSpentOn(log, date)
    ensures LastRecorded(log).Some? <==> AnySpent(log)
  {
    if log != [] {
      var init, last := log[..|log| - 1], log[|log| - 1];
      LastRecordedIsLastSpent(init, date);
      assert log == init + [last];
      LastSpentSnoc(init, last, date);
      assert forall i | 0 <= i < |init| :: init[i] == log[i];
    }
  }

  /** The day on record is that of the last attempt that spent one. */
  lemma {:induction false} DayIsOnRecordIff(schedule: Schedule, firstEvent: int, steps: seq<Step>, date: int)
    ensures var last := JobAfter(schedule, Never(firstEvent), steps).lastRun;
      var log := LogOf(schedule, Never(firstEvent), steps);
      (last == Some(date) <==> LastSpentOn(log, date)) && (last.Some? <==> AnySpent(log))
  {
    JobRemembersLastDay(schedule, firstEvent, steps);
    LastRecordedIsLastSpent(LogOf(schedule, Never(firstEvent), steps), date);
  }

  // ---- One more step ------------------------------------------------------------------------

  /** The range of a request: up to today, from the correction boundary once a day is on
      record and from the padded first event before; never a range that starts later than today. */
  ghost predicate IsRange(window: Window, schedule: Schedule, firstEvent: int, log: seq<Attempt>, today: int) {
    var correction := if schedule.correctionDays > 0 then schedule.correctionDays else 0;
    var padding := if schedule.paddingDays > 0 then schedule.paddingDays else 0;
    var start := if AnySpent(log) then today - correction else firstEvent - padding;
    window.end == today && window.start == if start < today then start else today
  }

  /** The run goes on with one request, made at the schedule's or the owner's word. */
  ghost predicate Asks(schedule: Schedule, firstEvent: int, steps: seq<Step>, step: Step)
    requires step.Scheduled? || step.Manual?
  {
    var log := LogOf(schedule, Never(firstEvent), steps);
    exists attempt ::
      && LogOf(schedule, Never(firstEvent), steps + [step]) == log + [attempt]
      && attempt.answer == step.answer && (attempt.scheduled <==> step.Scheduled?)
      && IsRange(attempt.window, schedule, FirstEventAfter(firstEvent, steps), log, step.now.date)
  }

  ghost predicate KeepsQuiet(schedule: Schedule, firstEvent: int, steps: seq<Step>, step: Step) {
    LogOf(schedule, Never(firstEvent), steps + [step]) == LogOf(schedule, Never(firstEvent), steps)
  }

  lemma {:induction false} WindowIsRange(schedule: Schedule, firstEvent: int, steps: seq<Step>, today: int)
    requires ActiveAfter(steps)
    ensures var window := WindowOf(schedule, JobAfter(schedule, Never(firstEvent), steps), today);
      window.Some? && IsRange(window.value, schedule, FirstEventAfter(firstEvent, steps), LogOf(schedule, Never(firstEvent), steps), today)
  {
    JobIsAsSet(schedule, firstEvent, steps);
    DayIsOnRecordIff(schedule, firstEvent, steps, today);
  }

  lemma {:induction false} OneMoreStep(schedule: Schedule, firstEvent: int, steps: seq<Step>, step: Step)
    ensures LogOf(schedule, Never(firstEvent), steps + [step])
         == LogOf(schedule, Never(firstEvent), steps)
            + match Attempted(schedule, JobAfter(schedule, Never(firstEvent), steps), step)
              case Some(attempt) => [attempt]
              case None => []
  {
    assert (steps + [step])[..|steps|] == steps;
  }

  /** The schedule asks exactly when the series is active, the market has closed, and
      the last day on record is another: for every run, whatever its clock does. */
  lemma {:induction false} ScheduledRunAsksIff(schedule: Schedule, firstEvent: int, steps: seq<Step>, now: Moment, answer: Answer)
    ensures var step, log := Scheduled(now, answer), LogOf(schedule, Never(firstEvent), steps);
      if ActiveAfter(steps) && now.time >= schedule.closeTime && !LastSpentOn(log, now.date)
      then Asks(schedule, firstEvent, steps, step)
      else KeepsQuiet(schedule, firstEvent, steps, step)
  {
    JobIsAsSet(schedule, firstEvent, steps);
    DayIsOnRecordIff(schedule, firstEvent, steps, now.date);
    OneMoreStep(schedule, firstEvent, steps, Scheduled(now, answer));
    if ActiveAfter(steps) {
      WindowIsRange(schedule, firstEvent, steps, now.date);
    }
  }

  /** The owner's request is made exactly when the series is active. */
  lemma {:induction false} ManualRunAsksIff(schedule: Schedule, firstEvent: int, steps: seq<Step>, now: Moment, answer: Answer)
    ensures var step := Manual(now, answer);
      if ActiveAfter(steps) then Asks(schedule, firstEvent, steps, step) else KeepsQuiet(schedule, firstEvent, steps, step)
  {
    JobIsAsSet(schedule, firstEvent, steps);
    OneMoreStep(schedule, firstEvent, steps, Manual(now, answer));
    if ActiveAfter(steps) {
      WindowIsRange(schedule, firstEvent, steps, now.date);
    }
  }

  lemma {:induction false} LastSpentIsAnySpent(log: seq<Attempt>, date: int)
    requires forall i, j | 0 <= i < j < |log| :: log[i].window.end <= log[j].window.end
    requires forall i | 0 <= i < |log| :: log[i].window.end <= date
    ensures LastSpentOn(log, date) <==> AnySpentOn(log, date)
  {
    if log != [] && AnySpentOn(log, date) {
      var init, last := log[..|log| - 1], log[|log| - 1];
      assert log == init + [last];
      assert forall i | 0 <= i < |init| :: init[i] == log[i];
      LastSpentIsAnySpent(init, date);
      LastSpentSnoc(init, last, date);
    }
  }

  /** Where the clock does not go back, the schedule asks exactly when the series is
      active, the market has closed, and no attempt of that day has spent it. */
  lemma {:induction false} ScheduledRunAsksOncePerDay(
      schedule: Schedule, firstEvent: int, steps: seq<Step>, now: Moment, answer: Answer)
    requires InTime(steps + [Scheduled(now, answer)])
    ensures var step, log := Scheduled(now, answer), LogOf(schedule, Never(firstEvent), steps);
      if ActiveAfter(steps) && now.time >= schedule.closeTime && !AnySpentOn(log, now.date)
      then Asks(schedule, firstEvent, steps, step)
      else KeepsQuiet(schedule, firstEvent, steps, step)
  {
    var log, longer := LogOf(schedule, Never(firstEvent), steps), steps + [Scheduled(now, answer)];
    assert forall i | 0 <= i < |steps| :: longer[i] == steps[i];
    assert longer[|steps|] == Scheduled(now, answer);
    RunKeepsLog(schedule, firstEvent, steps);
    LogIsDated(schedule, Never(firstEvent), steps, now.date);
    forall i, j | 0 <= i < j < |log|
      ensures log[i].window.end <= log[j].window.end
    {
      assert Day(log[i]) <= Day(log[j]);
    }
    forall i | 0 <= i < |log|
      ensures log[i].window.end <= now.date
    {
      assert Day(log[i]) <= now.date;
    }
    LastSpentIsAnySpent(log, now.date);
    ScheduledRunAsksIff(schedule, firstEvent, steps, now, answer);
  }
}
