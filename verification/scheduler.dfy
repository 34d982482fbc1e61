/** The decision part of `schedule_birthday_messages`: for each loaded
    record, whether it has passed or, if not, the adjusted target time the
    program computes and the daily clock time under which the job is
    registered. Only that clock text reaches the scheduler: the job runs at
    the next occurrence of it and then every day, whatever the date of the
    target time. Instants are whole seconds since 0001-01-01 00:00:00; the
    wall clock is a parameter. Moving a target to two minutes from now can
    pass the last instant a `datetime` holds; the program then stops with an
    uncaught `OverflowError`. */
module Scheduler {
  import opened Strings
  import opened Calendar
  import opened RecordStore

  /** The minimum lead time, in seconds (two minutes). */
  const LeadTime := 120

  /** What happens to one record. */
  datatype Decision =
    | Passed                             // reported as already passed; no job
    | Job(targetTime: int, key: string)  // `target_time` after the clamp; registered daily at `key`
    | Overflow                           // the clamp passed `datetime.max`: the program stops

  /** The decision for a record due at `target` when the clock reads `now`:
      a target not strictly later than now has passed; otherwise the target
      time becomes two minutes from now if that is later, and the job is
      keyed by that time's clock text alone. Two minutes from now past
      9999-12-31 23:59:59 cannot be represented, and the program stops. */
  function Decide(target: DateTime, now: int): (d: Decision)
    ensures d.Passed? <==> Seconds(target) <= now
    ensures d.Overflow? <==>
      (now < Seconds(target) < now + LeadTime && now + LeadTime > Seconds(Latest))
    ensures d.Job? ==> d.targetTime >= now + LeadTime && d.targetTime >= Seconds(target)
    ensures d.Job? ==> d.targetTime == Seconds(target) || d.targetTime == now + LeadTime
    ensures d.Job? ==> d.key == ClockText(d.targetTime)
  {
    var t := Seconds(target);
    if t <= now then Passed
    else if t - now < LeadTime then
      if now + LeadTime > Seconds(Latest) then Overflow
      else Job(now + LeadTime, ClockText(now + LeadTime))
    else Job(t, ClockText(t))
  }

  /** The per-record loop: the clock is read afresh for each record, so
      `clock[i]` is the reading taken when record `i` is considered. The
      decisions run in record order up to and including the first overflow,
      which ends the program; records after it are never considered. */
  function ScheduleAll(rs: seq<Record>, clock: seq<int>): (ds: seq<Decision>)
    requires |clock| == |rs|
    ensures |ds| <= |rs|
    ensures forall i :: 0 <= i < |ds| ==> ds[i] == Decide(rs[i].when, clock[i])
    ensures forall i :: 0 <= i < |ds| - 1 ==> !ds[i].Overflow?
    ensures |ds| < |rs| ==> |ds| > 0 && ds[|ds| - 1].Overflow?
    decreases |rs|
  {
    if |rs| == 0 then []
    else
      var d := Decide(rs[0].when, clock[0]);
      if d.Overflow? then [d] else [d] + ScheduleAll(rs[1..], clock[1..])
  }

  /** While every clock reading is at least two minutes before the last
      representable instant, every record is considered. */
  lemma ScheduleAllReachesEnd(rs: seq<Record>, clock: seq<int>)
    requires |clock| == |rs|
    requires forall i :: 0 <= i < |clock| ==> clock[i] + LeadTime <= Seconds(Latest)
    ensures |ScheduleAll(rs, clock)| == |rs|
  {
  }

  /** The later of two instants. */
  function Later(a: int, b: int): int {
    if a >= b then a else b
  }

  /** Each record the loop reaches, judged against its own clock reading:
      it has passed exactly when its date-time is not after that reading;
      away from the end of the representable range it otherwise gets a job;
      and a job's target time is the later of its date-time and two minutes
      after the reading, keyed by that instant's clock text. */
  lemma ScheduleAllJobs(rs: seq<Record>, clock: seq<int>, i: nat)
    requires |clock| == |rs| && i < |ScheduleAll(rs, clock)|
    ensures ScheduleAll(rs, clock)[i].Passed? <==> Seconds(rs[i].when) <= clock[i]
    ensures clock[i] + LeadTime <= Seconds(Latest) ==>
      (ScheduleAll(rs, clock)[i].Job? <==> Seconds(rs[i].when) > clock[i])
    ensures ScheduleAll(rs, clock)[i].Job? ==>
      var t := Later(Seconds(rs[i].when), clock[i] + LeadTime);
      ScheduleAll(rs, clock)[i] == Job(t, ClockText(t))
  {
  }

  /** A job for a target far enough ahead is keyed by the target's own hours,
      minutes and seconds. */
  lemma KeyOfDistantTarget(target: DateTime, now: int)
    requires Seconds(target) >= now + LeadTime
    ensures Decide(target, now) == Job(Seconds(target), ClockText(Seconds(target)))
    ensures Decide(target, now).key
      == Pad(target.hour, 2) + ":" + Pad(target.minute, 2) + ":" + Pad(target.second, 2)
  {
    ClockTextOf(target);
  }

  /** A target less than two minutes ahead is moved to exactly two minutes
      from now. */
  lemma NearTargetClamped(target: DateTime, now: int)
    requires now < Seconds(target) < now + LeadTime
    requires now + LeadTime <= Seconds(Latest)
    ensures Decide(target, now) == Job(now + LeadTime, ClockText(now + LeadTime))
  {
  }

  /** Within two minutes of the last representable instant, moving a near
      target to two minutes from now overflows, and no job is registered. */
  lemma NearTargetOverflows(target: DateTime, now: int)
    requires now < Seconds(target) < now + LeadTime
    requires now + LeadTime > Seconds(Latest)
    ensures Decide(target, now) == Overflow
  {
  }

  /** The date is dropped from the key: two targets far enough ahead get the
      same key exactly when they fall at the same time of day, so birthdays a
      whole number of days apart share one daily job time. */
  lemma KeyIgnoresDate(a: DateTime, b: DateTime, now: int)
    requires Seconds(a) >= now + LeadTime && Seconds(b) >= now + LeadTime
    ensures Decide(a, now).key == Decide(b, now).key <==>
      (a.hour == b.hour && a.minute == b.minute && a.second == b.second)
  {
    KeyOfDistantTarget(a, now);
    KeyOfDistantTarget(b, now);
    SameClockText(a, b);
  }

  /** Two date-times' instants share their clock text exactly when their
      hours, minutes and seconds agree. */
  lemma SameClockText(a: DateTime, b: DateTime)
    ensures ClockText(Seconds(a)) == ClockText(Seconds(b)) <==>
      (a.hour == b.hour && a.minute == b.minute && a.second == b.second)
  {
    ClockTextSameTimeOfDay(Seconds(a), Seconds(b));
    ModOfMultiplePlus(DayNumber(a), SecondOfDay(a), SecondsPerDay);
    ModOfMultiplePlus(DayNumber(b), SecondOfDay(b), SecondsPerDay);
    if SecondOfDay(a) == SecondOfDay(b) {
      SecondOfDayInjective(a, b);
    }
  }

  lemma SecondOfDayInjective(a: DateTime, b: DateTime)
    requires SecondOfDay(a) == SecondOfDay(b)
    ensures a.hour == b.hour && a.minute == b.minute && a.second == b.second
  {
    ModOfMultiplePlus(a.hour, a.minute * 60 + a.second, 3600);
    ModOfMultiplePlus(b.hour, b.minute * 60 + b.second, 3600);
    ModOfMultiplePlus(a.minute, a.second, 60);
    ModOfMultiplePlus(b.minute, b.second, 60);
  }

  /** Target times a whole number of days apart produce the same key. */
  lemma KeyRepeatsDaily(target: DateTime, now: int, days: int)
    requires Decide(target, now).Job?
    ensures ClockText(Decide(target, now).targetTime + days * SecondsPerDay) == Decide(target, now).key
  {
    ClockTextDaily(Decide(target, now).targetTime, days);
  }

  /** Passing the clock as seconds agrees with comparing date-times: when the
      clock reading is itself a date-time, the record has passed exactly when
      its target is not strictly after that reading. */
  lemma PassedIffNotAfter(target: DateTime, now: DateTime)
    ensures Decide(target, Seconds(now)).Passed? <==> !Before(now, target)
  {
    SecondsOrdered(now, target);
  }
}
