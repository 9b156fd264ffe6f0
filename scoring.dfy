/** Tasks and the three score factors of the scheduler: urgency (priority and
    deadline), time-of-day efficiency and deadline proximity. Scores are exact
    reals. */
module Scoring {
  import opened TimeCodec

  /** `high`, `medium`, `low`; `Other` stands for any other priority string. */
  datatype Priority = High | Medium | Low | Other

  /** An input task. `deadline == ""` is the source's falsy "no deadline". */
  datatype Task = Task(id: int, name: string, duration: int, priority: Priority, deadline: string)

  /** The only thing the scheduler demands of a task: a deadline, when
      present, parses as `HH:MM`. */
  predicate TaskValid(t: Task) {
    t.deadline == "" || WellFormed(t.deadline)
  }

  predicate HasDeadline(t: Task) { t.deadline != "" }

  function DeadlineMinutes(t: Task): nat
    requires TaskValid(t) && HasDeadline(t)
  {
    TimeToMinutes(t.deadline)
  }

  function MaxReal(a: real, b: real): real { if a >= b then a else b }

  function AbsInt(x: int): nat { if x < 0 then -x else x }

  /** `priorityWeight[task.priority] || 25`. */
  function BaseWeight(p: Priority): (w: real)
    ensures w == 100.0 || w == 50.0 || w == 25.0
    ensures w == 100.0 <==> p == High
    ensures w == 50.0 <==> p == Medium
  {
    match p
    case High => 100.0
    case Medium => 50.0
    case Low => 25.0
    case Other => 25.0
  }

  /** Urgency at a time given in minutes; `calculateUrgency` parses its
      `currentTime` string and then computes this. */
  function UrgencyAt(t: Task, current: int): (u: real)
    requires TaskValid(t)
    ensures !HasDeadline(t) ==> u == BaseWeight(t.priority)
    ensures HasDeadline(t) ==> u >= 1.1 * BaseWeight(t.priority)
    ensures u > 0.0
  {
    var base := BaseWeight(t.priority);
    if !HasDeadline(t) then base
    else
      var untilDeadline := DeadlineMinutes(t) - current;
      base * (1.0 + MaxReal(0.1, 1.0 - untilDeadline as real / 480.0))
  }

  /** `calculateUrgency(task, currentTime)`. */
  function CalculateUrgency(t: Task, currentTime: string): (u: real)
    requires TaskValid(t) && WellFormed(currentTime)
    ensures !HasDeadline(t) ==> u == BaseWeight(t.priority)
    ensures HasDeadline(t) ==> u >= 1.1 * BaseWeight(t.priority)
    ensures HasDeadline(t) ==> (u <= 2.0 * BaseWeight(t.priority) <==> TimeToMinutes(currentTime) <= DeadlineMinutes(t))
  {
    if HasDeadline(t) then
      UrgencyPastDeadline(t, TimeToMinutes(currentTime));
      UrgencyAt(t, TimeToMinutes(currentTime))
    else UrgencyAt(t, TimeToMinutes(currentTime))
  }

  /** Urgency never falls as the clock moves towards (or past) the deadline. */
  lemma UrgencyMonotone(t: Task, c1: int, c2: int)
    requires TaskValid(t) && c1 <= c2
    ensures UrgencyAt(t, c1) <= UrgencyAt(t, c2)
  {
    if HasDeadline(t) {
      var base := BaseWeight(t.priority);
      var m1 := MaxReal(0.1, 1.0 - (DeadlineMinutes(t) - c1) as real / 480.0);
      var m2 := MaxReal(0.1, 1.0 - (DeadlineMinutes(t) - c2) as real / 480.0);
      assert m1 <= m2;
      assert base * (1.0 + m1) <= base * (1.0 + m2);
    }
  }

  /** With a deadline, urgency is at most twice the base weight exactly while
      the deadline has not passed. */
  lemma UrgencyPastDeadline(t: Task, current: int)
    requires TaskValid(t) && HasDeadline(t)
    ensures UrgencyAt(t, current) <= 2.0 * BaseWeight(t.priority) <==> current <= DeadlineMinutes(t)
  {
    var base := BaseWeight(t.priority);
    var x := (DeadlineMinutes(t) - current) as real / 480.0;
    var m := MaxReal(0.1, 1.0 - x);
    assert UrgencyAt(t, current) == base * (1.0 + m);
    if current <= DeadlineMinutes(t) {
      assert x >= 0.0;
      assert m <= 1.0;
      assert base * (1.0 + m) <= base * 2.0;
    } else {
      assert x < 0.0;
      assert m > 1.0;
      assert base * (1.0 + m) > base * 2.0;
    }
  }

  /** A task of higher priority is at least as urgent as one of lower
      priority with the same deadline. */
  lemma UrgencyPriorityOrder(t1: Task, t2: Task, current: int)
    requires TaskValid(t1) && TaskValid(t2) && t1.deadline == t2.deadline
    requires BaseWeight(t1.priority) >= BaseWeight(t2.priority)
    ensures UrgencyAt(t1, current) >= UrgencyAt(t2, current)
  {
    if HasDeadline(t1) {
      var m := MaxReal(0.1, 1.0 - (DeadlineMinutes(t1) - current) as real / 480.0);
      assert UrgencyAt(t1, current) == BaseWeight(t1.priority) * (1.0 + m);
      assert UrgencyAt(t2, current) == BaseWeight(t2.priority) * (1.0 + m);
    }
  }

  const PeakHours: seq<int> := [9, 10, 14, 15]
  const GoodHours: seq<int> := [8, 11, 13, 16]

  /** The time-of-day table of `calculateEfficiencyScore` for a given hour. */
  function EfficiencyAtHour(p: Priority, hour: int): (e: real)
    ensures e == 0.7 || e == 1.0 || e == 1.1 || e == 1.3 || e == 1.56
    ensures e == 1.56 <==> p == High && hour in PeakHours
    ensures e == 1.3 <==> p != High && hour in PeakHours
    ensures e == 1.1 <==> hour in GoodHours
    ensures e == 0.7 <==> (hour < 8 || hour > 17) && hour !in PeakHours && hour !in GoodHours
    ensures e == 1.0 <==> 8 <= hour <= 17 && hour !in PeakHours && hour !in GoodHours
  {
    var e :=
      if hour in PeakHours then 1.3
      else if hour in GoodHours then 1.1
      else if hour < 8 || hour > 17 then 0.7
      else 1.0;
    if p == High && hour in PeakHours then e * 1.2 else e
  }

  /** `calculateEfficiencyScore(task, startTime)`: the hour is
      `floor(minutes / 60)` of the parsed start time. */
  function CalculateEfficiencyScore(t: Task, startTime: string): (e: real)
    requires WellFormed(startTime)
    ensures e == 0.7 || e == 1.0 || e == 1.1 || e == 1.3 || e == 1.56
    ensures e == 1.56 <==> t.priority == High && TimeToMinutes(startTime) / 60 in PeakHours
  {
    EfficiencyAtHour(t.priority, TimeToMinutes(startTime) / 60)
  }

  /** The deadline-proximity factor of the slot search: 1 without a deadline,
      otherwise `max(0.1, 1 - |start - deadline| / 240)`. */
  function DeadlineScore(t: Task, start: int): (d: real)
    requires TaskValid(t)
    ensures 0.1 <= d <= 1.0
    ensures d == 1.0 <==> !HasDeadline(t) || start == DeadlineMinutes(t)
  {
    if !HasDeadline(t) then 1.0
    else MaxReal(0.1, 1.0 - AbsInt(start - DeadlineMinutes(t)) as real / 240.0)
  }

  /** A start closer to the deadline never scores lower. */
  lemma DeadlineScoreCloser(t: Task, s1: int, s2: int)
    requires TaskValid(t) && HasDeadline(t)
    requires AbsInt(s1 - DeadlineMinutes(t)) <= AbsInt(s2 - DeadlineMinutes(t))
    ensures DeadlineScore(t, s1) >= DeadlineScore(t, s2)
  {
    var a1 := AbsInt(s1 - DeadlineMinutes(t)) as real / 240.0;
    var a2 := AbsInt(s2 - DeadlineMinutes(t)) as real / 240.0;
    assert a1 <= a2;
  }

  /** The composite score of starting `t` at minute `start`:
      urgency * efficiency * deadline proximity, all taken at that minute.
      The slot search evaluates the first two on the printed time
      `minutesToTime(start)`; `PrintedSlotScore` shows that is the same. */
  function SlotScore(t: Task, start: nat): real
    requires TaskValid(t)
  {
    TotalScore(UrgencyAt(t, start), EfficiencyAtHour(t.priority, start / 60), DeadlineScore(t, start))
  }

  /** `urgencyScore * efficiencyScore * deadlineScore`. */
  function TotalScore(urgency: real, efficiency: real, deadline: real): real {
    urgency * efficiency * deadline
  }

  /** Every feasible slot scores above the search's initial best of -1. */
  lemma SlotScorePositive(t: Task, start: nat)
    requires TaskValid(t)
    ensures SlotScore(t, start) > 0.0
  {
    PositiveProduct(UrgencyAt(t, start), EfficiencyAtHour(t.priority, start / 60), DeadlineScore(t, start));
  }

  lemma PositiveProduct(a: real, b: real, c: real)
    requires a > 0.0 && b > 0.0 && c > 0.0
    ensures TotalScore(a, b, c) > 0.0
  {
    assert a * b > 0.0;
  }

  /** Printing a start minute and parsing it back, as the slot search does
      before scoring, leaves the urgency factor that of the minute itself. */
  lemma UrgencyOfPrinted(t: Task, start: nat)
    requires TaskValid(t)
    ensures CalculateUrgency(t, MinutesToTime(start)) == UrgencyAt(t, start)
  {
    RoundTrip(start);
  }

  /** Likewise for the efficiency factor: its hour is `floor(start / 60)`. */
  lemma EfficiencyOfPrinted(t: Task, start: nat)
    requires TaskValid(t)
    ensures CalculateEfficiencyScore(t, MinutesToTime(start)) == EfficiencyAtHour(t.priority, start / 60)
  {
    RoundTrip(start);
  }

  /** The score of a candidate as the slot search computes it: urgency and
      efficiency of the printed start time `minutesToTime(start)`, times the
      deadline factor. It equals the score at the start minute. */
  function CandidateScore(t: Task, start: nat): (score: real)
    requires TaskValid(t)
    ensures score == SlotScore(t, start)
  {
    var startTime := MinutesToTime(start);
    UrgencyOfPrinted(t, start);
    EfficiencyOfPrinted(t, start);
    TotalScore(CalculateUrgency(t, startTime), CalculateEfficiencyScore(t, startTime), DeadlineScore(t, start))
  }
}
