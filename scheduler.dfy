/** The `AIScheduler` class: slot search, the greedy driver, break insertion
    and schedule metrics. Times inside a schedule are minutes since midnight;
    the source keeps `minutesToTime(m)` strings and parses them back with
    `timeToMinutes`, which `TimeCodec.RoundTrip` shows gives `m` again. */
module Scheduler {
  import opened TimeCodec
  import opened Scoring
  import opened Sorting

  datatype Option<T> = None | Some(value: T)

  datatype WorkingHours = WorkingHours(start: string, end: string)

  /** `{ startTime, endTime, score }` returned by the slot search. */
  datatype Slot = Slot(startTime: nat, endTime: int, score: real)

  /** `{ ...task, startTime, endTime, optimizationScore }`. */
  datatype Placed = Placed(task: Task, startTime: nat, endTime: int, optimizationScore: real)

  datatype Metrics = Metrics(efficiency: real, coverage: real, balance: real)

  /** Granularity of the candidate scan, in minutes. */
  const SlotStep: int := 15

  function Place(t: Task, slot: Slot): Placed {
    Placed(t, slot.startTime, slot.endTime, slot.score)
  }

  function SlotOf(p: Placed): Slot {
    Slot(p.startTime, p.endTime, p.optimizationScore)
  }

  function TasksOf(s: seq<Placed>): (ts: seq<Task>)
    ensures |ts| == |s| && forall i :: 0 <= i < |s| ==> ts[i] == s[i].task
  {
    seq(|s|, i requires 0 <= i < |s| => s[i].task)
  }

  lemma TasksOfConcat(a: seq<Placed>, b: seq<Placed>)
    ensures TasksOf(a + b) == TasksOf(a) + TasksOf(b)
  {
    var l, r := TasksOf(a + b), TasksOf(a) + TasksOf(b);
    assert |l| == |r|;
    forall i | 0 <= i < |l| ensures l[i] == r[i] {
      if i < |a| { assert (a + b)[i] == a[i]; } else { assert (a + b)[i] == b[i - |a|]; }
    }
  }

  lemma LastSplit<T>(s: seq<T>)
    requires |s| > 0
    ensures s == s[..|s| - 1] + [s[|s| - 1]]
  {
  }

  // ---------------------------------------------------------------------
  // Conflicts

  /** The half-open intervals `[start, end)` and `[p.startTime, p.endTime)`
      intersect (touching ends do not). */
  predicate Overlaps(start: int, end: int, p: Placed) {
    start < p.endTime && end > p.startTime
  }

  predicate Disjoint(a: Placed, b: Placed) {
    !Overlaps(a.startTime, a.endTime, b)
  }

  predicate PairwiseDisjoint(s: seq<Placed>) {
    forall i, j :: 0 <= i < |s| && 0 <= j < |s| && i != j ==> Disjoint(s[i], s[j])
  }

  predicate Chronological(s: seq<Placed>) {
    forall i, j :: 0 <= i < j < |s| ==> s[i].startTime <= s[j].startTime
  }

  /** `schedule.some(...)` of the slot search: does some placed task
      overlap the candidate interval? */
  function HasConflict(schedule: seq<Placed>, start: int, end: int): bool {
    if schedule == [] then false
    else Overlaps(start, end, schedule[0]) || HasConflict(schedule[1..], start, end)
  }

  /** The scan finds a conflict exactly when some placed task overlaps. */
  lemma {:induction false} HasConflictIff(schedule: seq<Placed>, start: int, end: int)
    ensures HasConflict(schedule, start, end)
        <==> exists i :: 0 <= i < |schedule| && Overlaps(start, end, schedule[i])
  {
    if schedule != [] {
      HasConflictIff(schedule[1..], start, end);
      if HasConflict(schedule[1..], start, end) {
        var i :| 0 <= i < |schedule[1..]| && Overlaps(start, end, schedule[1..][i]);
        assert schedule[i + 1] == schedule[1..][i];
      }
      if exists i :: 0 <= i < |schedule| && Overlaps(start, end, schedule[i]) {
        var i :| 0 <= i < |schedule| && Overlaps(start, end, schedule[i]);
        if i > 0 {
          assert schedule[1..][i - 1] == schedule[i];
        }
      }
    }
  }

  // ---------------------------------------------------------------------
  // Slot search specification

  /** A candidate start of the scan: on the 15-minute grid from `ws`. */
  predicate OnGrid(ws: int, s: int) {
    ws <= s && (s - ws) % SlotStep == 0
  }

  /** A candidate the scan accepts: on the grid, within the loop bound, free
      of conflicts and ending by `we` (the last test repeats the loop bound). */
  predicate Acceptable(t: Task, schedule: seq<Placed>, ws: int, we: int, s: int) {
    OnGrid(ws, s) && s <= we - t.duration
    && !HasConflict(schedule, s, s + t.duration) && s + t.duration <= we
  }

  /** `canFitTask`: the task's duration is at most the minutes between the
      two times. */
  function CanFitTask(t: Task, startTime: string, endTime: string): (fits: bool)
    requires WellFormed(startTime) && WellFormed(endTime)
    ensures fits <==> TimeToMinutes(startTime) + t.duration <= TimeToMinutes(endTime)
  {
    var availableTime := TimeToMinutes(endTime) - TimeToMinutes(startTime);
    t.duration <= availableTime
  }

  /** On printed times `canFitTask` compares the duration with the minutes
      between them. */
  lemma CanFitPrinted(t: Task, a: nat, b: nat)
    ensures CanFitTask(t, MinutesToTime(a), MinutesToTime(b)) <==> t.duration <= b - a
  {
    RoundTrip(a);
    RoundTrip(b);
  }

  /** Every candidate the scan accepts fits between its start and the end of
      the working window. */
  lemma AcceptableFits(t: Task, schedule: seq<Placed>, ws: int, we: nat, s: nat)
    requires Acceptable(t, schedule, ws, we, s)
    ensures CanFitTask(t, MinutesToTime(s), MinutesToTime(we))
  {
    CanFitPrinted(t, s, we);
  }

  ghost predicate NoSlot(t: Task, schedule: seq<Placed>, ws: int, we: int) {
    forall s: int :: !Acceptable(t, schedule, ws, we, s)
  }

  /** `slot` is an accepted candidate of maximal score and the earliest one
      reaching that score. */
  ghost predicate IsBestSlot(t: Task, schedule: seq<Placed>, ws: int, we: int, slot: Slot)
    requires TaskValid(t)
  {
    Acceptable(t, schedule, ws, we, slot.startTime)
    && slot.endTime == slot.startTime + t.duration
    && slot.score == SlotScore(t, slot.startTime)
    && (forall s: nat :: Acceptable(t, schedule, ws, we, s) ==> SlotScore(t, s) <= slot.score)
    && (forall s: nat :: Acceptable(t, schedule, ws, we, s) && s < slot.startTime ==> SlotScore(t, s) < slot.score)
  }

  /** Two grid points less than one step apart are the same point. */
  lemma GridGap(ws: int, s: int, c: int)
    requires OnGrid(ws, s) && OnGrid(ws, c) && s <= c < s + SlotStep
    ensures c == s
  {
    var a, b := (s - ws) / SlotStep, (c - ws) / SlotStep;
    assert s - ws == SlotStep * a && c - ws == SlotStep * b;
    assert a <= b < a + 1;
  }

  lemma GridNext(ws: int, s: int)
    requires OnGrid(ws, s)
    ensures OnGrid(ws, s + SlotStep)
  {
    assert s + SlotStep - ws == (s - ws) + SlotStep;
  }

  /** No candidate below `bound` is accepted. */
  ghost predicate NoneBelow(t: Task, schedule: seq<Placed>, ws: int, we: int, bound: int) {
    forall c: nat :: c < bound ==> !Acceptable(t, schedule, ws, we, c)
  }

  /** `slot` is the best accepted candidate below `bound`, and the earliest
      candidate reaching its score. */
  ghost predicate BestBelow(t: Task, schedule: seq<Placed>, ws: int, we: int, bound: int, slot: Slot)
    requires TaskValid(t)
  {
    slot.startTime < bound
    && Acceptable(t, schedule, ws, we, slot.startTime)
    && slot.endTime == slot.startTime + t.duration
    && slot.score == SlotScore(t, slot.startTime)
    && (forall c: nat :: c < bound && Acceptable(t, schedule, ws, we, c) ==> SlotScore(t, c) <= slot.score)
    && (forall c: nat :: c < slot.startTime && Acceptable(t, schedule, ws, we, c) ==> SlotScore(t, c) < slot.score)
  }

  /** A candidate the scan rejects leaves nothing accepted below the next grid point. */
  lemma NoneKept(t: Task, schedule: seq<Placed>, ws: int, we: int, s: nat)
    requires OnGrid(ws, s) && NoneBelow(t, schedule, ws, we, s) && !Acceptable(t, schedule, ws, we, s)
    ensures NoneBelow(t, schedule, ws, we, s + SlotStep) && OnGrid(ws, s + SlotStep)
  {
    GridNext(ws, s);
    forall c: nat | c < s + SlotStep && Acceptable(t, schedule, ws, we, c) ensures false {
      GridGap(ws, s, c);
    }
  }

  /** The first accepted candidate becomes the best so far. */
  lemma NoneThenFound(t: Task, schedule: seq<Placed>, ws: int, we: int, s: nat)
    requires TaskValid(t) && OnGrid(ws, s) && NoneBelow(t, schedule, ws, we, s)
    requires Acceptable(t, schedule, ws, we, s)
    ensures BestBelow(t, schedule, ws, we, s + SlotStep, Slot(s, s + t.duration, SlotScore(t, s)))
    ensures OnGrid(ws, s + SlotStep)
  {
    GridNext(ws, s);
    forall c: nat | c < s + SlotStep && Acceptable(t, schedule, ws, we, c) ensures c == s {
      GridGap(ws, s, c);
    }
  }

  /** A candidate that is rejected or does not score strictly higher keeps
      the best slot. */
  lemma BestKept(t: Task, schedule: seq<Placed>, ws: int, we: int, s: nat, slot: Slot)
    requires TaskValid(t) && OnGrid(ws, s) && BestBelow(t, schedule, ws, we, s, slot)
    requires Acceptable(t, schedule, ws, we, s) ==> SlotScore(t, s) <= slot.score
    ensures BestBelow(t, schedule, ws, we, s + SlotStep, slot) && OnGrid(ws, s + SlotStep)
  {
    GridNext(ws, s);
    forall c: nat | s <= c < s + SlotStep && Acceptable(t, schedule, ws, we, c) ensures c == s {
      GridGap(ws, s, c);
    }
  }

  /** An accepted candidate scoring strictly higher becomes the best slot. */
  lemma BestReplaced(t: Task, schedule: seq<Placed>, ws: int, we: int, s: nat, slot: Slot)
    requires TaskValid(t) && OnGrid(ws, s) && BestBelow(t, schedule, ws, we, s, slot)
    requires Acceptable(t, schedule, ws, we, s) && SlotScore(t, s) > slot.score
    ensures BestBelow(t, schedule, ws, we, s + SlotStep, Slot(s, s + t.duration, SlotScore(t, s)))
    ensures OnGrid(ws, s + SlotStep)
  {
    GridNext(ws, s);
    forall c: nat | s <= c < s + SlotStep && Acceptable(t, schedule, ws, we, c) ensures c == s {
      GridGap(ws, s, c);
    }
  }

  /** One step of the scan: the candidate `s` replaces the best so far
      exactly when it is accepted and scores strictly higher. */
  lemma ScanStep(t: Task, schedule: seq<Placed>, ws: int, we: int, s: nat, before: Option<Slot>, after: Option<Slot>)
    requires TaskValid(t) && OnGrid(ws, s)
    requires before.None? ==> NoneBelow(t, schedule, ws, we, s)
    requires before.Some? ==> BestBelow(t, schedule, ws, we, s, before.value)
    requires after == if Acceptable(t, schedule, ws, we, s) && (before.None? || SlotScore(t, s) > before.value.score)
      then Some(Slot(s, s + t.duration, SlotScore(t, s))) else before
    ensures after.None? ==> NoneBelow(t, schedule, ws, we, s + SlotStep)
    ensures after.Some? ==> BestBelow(t, schedule, ws, we, s + SlotStep, after.value)
  {
    if !Acceptable(t, schedule, ws, we, s) {
      if before.None? {
        NoneKept(t, schedule, ws, we, s);
      } else {
        BestKept(t, schedule, ws, we, s, before.value);
      }
    } else if before.None? {
      NoneThenFound(t, schedule, ws, we, s);
    } else if SlotScore(t, s) > before.value.score {
      BestReplaced(t, schedule, ws, we, s, before.value);
    } else {
      BestKept(t, schedule, ws, we, s, before.value);
    }
  }

  /** Past the last candidate, nothing accepted below means no slot at all. */
  lemma NoneAtEnd(t: Task, schedule: seq<Placed>, ws: int, we: int, s: int)
    requires ws >= 0 && s > we - t.duration && NoneBelow(t, schedule, ws, we, s)
    ensures NoSlot(t, schedule, ws, we)
  {
  }

  /** Past the last candidate, the best slot below is the best slot. */
  lemma BestAtEnd(t: Task, schedule: seq<Placed>, ws: int, we: int, s: int, slot: Slot)
    requires TaskValid(t) && s > we - t.duration && BestBelow(t, schedule, ws, we, s, slot)
    ensures IsBestSlot(t, schedule, ws, we, slot) && !NoSlot(t, schedule, ws, we)
  {
  }

  /** A slot the search returns lies on the grid inside the working window,
      lasts the task's duration and overlaps no scheduled task. */
  lemma SlotValid(t: Task, schedule: seq<Placed>, ws: int, we: int, slot: Slot)
    requires TaskValid(t) && IsBestSlot(t, schedule, ws, we, slot)
    ensures ws <= slot.startTime && (slot.startTime - ws) % 15 == 0
    ensures slot.endTime == slot.startTime + t.duration <= we
    ensures forall i :: 0 <= i < |schedule| ==>
      !(slot.startTime < schedule[i].endTime && slot.endTime > schedule[i].startTime)
  {
    HasConflictIff(schedule, slot.startTime, slot.endTime);
  }

  /** The best slot is unique: the slot search is deterministic. */
  lemma BestSlotUnique(t: Task, schedule: seq<Placed>, ws: int, we: int, a: Slot, b: Slot)
    requires TaskValid(t)
    requires IsBestSlot(t, schedule, ws, we, a) && IsBestSlot(t, schedule, ws, we, b)
    ensures a == b
  {
  }

  /** Placing the same task at the best slot of the same schedule gives the
      same result. */
  lemma SameLast(t: Task, b1: seq<Placed>, p1: Placed, b2: seq<Placed>, p2: Placed, ws: int, we: int)
    requires TaskValid(t) && b1 == b2 && p1.task == t && p2.task == t
    requires IsBestSlot(t, b1, ws, we, SlotOf(p1)) && IsBestSlot(t, b2, ws, we, SlotOf(p2))
    ensures b1 + [p1] == b2 + [p2]
  {
    BestSlotUnique(t, b1, ws, we, SlotOf(p1), SlotOf(p2));
  }

  /** A task with a best slot is not one the scan finds no slot for. */
  lemma BestSlotExcludesNone(t: Task, schedule: seq<Placed>, ws: int, we: int, slot: Slot)
    requires TaskValid(t) && IsBestSlot(t, schedule, ws, we, slot)
    ensures !NoSlot(t, schedule, ws, we)
  {
  }

  // ---------------------------------------------------------------------
  // Greedy placement specification

  /** The placement loop of `optimizeSchedule`, as a relation between the
      tasks in urgency order and the placed tasks in placement order: each task
      in turn either gets the best slot against the tasks placed before it or,
      when it has none, is left out. Nothing placed is ever moved. */
  ghost predicate GreedyRun(ts: seq<Task>, order: seq<Placed>, ws: int, we: int)
    decreases |ts|
  {
    if ts == [] then order == []
    else
      var t := ts[|ts| - 1];
      var earlier := ts[..|ts| - 1];
      TaskValid(t) &&
      ((|order| > 0 && order[|order| - 1].task == t
        && IsBestSlot(t, order[..|order| - 1], ws, we, SlotOf(order[|order| - 1]))
        && GreedyRun(earlier, order[..|order| - 1], ws, we))
      || (NoSlot(t, order, ws, we) && GreedyRun(earlier, order, ws, we)))
  }

  /** One more task in urgency order extends the greedy run by the outcome
      of its slot search. */
  lemma GreedyExtend(ts: seq<Task>, t: Task, order: seq<Placed>, slot: Option<Slot>, ws: int, we: int)
    requires GreedyRun(ts, order, ws, we) && TaskValid(t)
    requires slot.None? <==> NoSlot(t, order, ws, we)
    requires slot.Some? ==> IsBestSlot(t, order, ws, we, slot.value)
    ensures GreedyRun(ts + [t], if slot.Some? then order + [Place(t, slot.value)] else order, ws, we)
  {
    assert (ts + [t])[..|ts|] == ts;
    if slot.Some? {
      var p := Place(t, slot.value);
      assert (order + [p])[..|order|] == order;
      assert SlotOf(p) == slot.value;
    }
  }

  lemma PrefixNext<T>(s: seq<T>, i: nat)
    requires i < |s|
    ensures s[..i + 1] == s[..i] + [s[i]]
  {
  }

  lemma PrefixAll<T>(s: seq<T>)
    ensures s[..|s|] == s
  {
  }

  /** What every placed task satisfies: on the grid, its own duration long,
      inside the working window, carrying its slot score. */
  ghost predicate WellPlaced(p: Placed, ws: int, we: int) {
    TaskValid(p.task) && OnGrid(ws, p.startTime)
    && p.endTime == p.startTime + p.task.duration && p.endTime <= we
    && p.optimizationScore == SlotScore(p.task, p.startTime)
  }

  /** Greedy placement places each task at most once. */
  lemma {:induction false} GreedySubMultiset(ts: seq<Task>, order: seq<Placed>, ws: int, we: int)
    requires GreedyRun(ts, order, ws, we)
    ensures multiset(TasksOf(order)) <= multiset(ts)
    ensures |order| <= |ts|
  {
    if ts != [] {
      var earlier := ts[..|ts| - 1];
      assert ts == earlier + [ts[|ts| - 1]];
      if |order| > 0 && order[|order| - 1].task == ts[|ts| - 1]
        && GreedyRun(earlier, order[..|order| - 1], ws, we) {
        var before := order[..|order| - 1];
        GreedySubMultiset(earlier, before, ws, we);
        assert order == before + [order[|order| - 1]];
        TasksOfConcat(before, [order[|order| - 1]]);
        assert TasksOf([order[|order| - 1]]) == [ts[|ts| - 1]];
      } else {
        GreedySubMultiset(earlier, order, ws, we);
      }
    }
  }

  /** Greedy placement never overlaps two tasks and places each well. */
  lemma {:induction false} GreedyDisjoint(ts: seq<Task>, order: seq<Placed>, ws: int, we: int)
    requires GreedyRun(ts, order, ws, we)
    ensures PairwiseDisjoint(order)
    ensures forall i :: 0 <= i < |order| ==> WellPlaced(order[i], ws, we)
  {
    if ts != [] {
      var t := ts[|ts| - 1];
      var earlier := ts[..|ts| - 1];
      if |order| > 0 && order[|order| - 1].task == t
        && IsBestSlot(t, order[..|order| - 1], ws, we, SlotOf(order[|order| - 1]))
        && GreedyRun(earlier, order[..|order| - 1], ws, we) {
        var before := order[..|order| - 1];
        var p := order[|order| - 1];
        GreedyDisjoint(earlier, before, ws, we);
        BestSlotPlaced(t, before, ws, we, p);
        AppendPlaced(before, p, ws, we);
        LastSplit(order);
      } else {
        GreedyDisjoint(earlier, order, ws, we);
      }
    }
  }

  /** The best slot, once taken, is free of the earlier tasks and well placed. */
  lemma BestSlotPlaced(t: Task, before: seq<Placed>, ws: int, we: int, p: Placed)
    requires TaskValid(t) && p.task == t && IsBestSlot(t, before, ws, we, SlotOf(p))
    ensures !HasConflict(before, p.startTime, p.endTime)
    ensures WellPlaced(p, ws, we)
  {
  }

  /** Appending a well-placed task free of the others keeps a schedule
      disjoint and well placed. */
  lemma AppendPlaced(before: seq<Placed>, p: Placed, ws: int, we: int)
    requires PairwiseDisjoint(before) && forall i :: 0 <= i < |before| ==> WellPlaced(before[i], ws, we)
    requires !HasConflict(before, p.startTime, p.endTime) && WellPlaced(p, ws, we)
    ensures PairwiseDisjoint(before + [p])
    ensures forall i :: 0 <= i < |before + [p]| ==> WellPlaced((before + [p])[i], ws, we)
  {
    HasConflictIff(before, p.startTime, p.endTime);
    var s := before + [p];
    forall i, j | 0 <= i < |s| && 0 <= j < |s| && i != j ensures Disjoint(s[i], s[j]) {
      if i == |before| {
        assert !Overlaps(p.startTime, p.endTime, before[j]);
      } else if j == |before| {
        assert !Overlaps(p.startTime, p.endTime, before[i]);
      } else {
        assert s[i] == before[i] && s[j] == before[j];
      }
    }
  }

  /** Greedy placement is deterministic. */
  lemma {:induction false} GreedyUnique(ts: seq<Task>, o1: seq<Placed>, o2: seq<Placed>, ws: int, we: int)
    requires GreedyRun(ts, o1, ws, we) && GreedyRun(ts, o2, ws, we)
    ensures o1 == o2
  {
    if ts != [] {
      var t := ts[|ts| - 1];
      var earlier := ts[..|ts| - 1];
      var placed1 := |o1| > 0 && o1[|o1| - 1].task == t
        && IsBestSlot(t, o1[..|o1| - 1], ws, we, SlotOf(o1[|o1| - 1]))
        && GreedyRun(earlier, o1[..|o1| - 1], ws, we);
      var placed2 := |o2| > 0 && o2[|o2| - 1].task == t
        && IsBestSlot(t, o2[..|o2| - 1], ws, we, SlotOf(o2[|o2| - 1]))
        && GreedyRun(earlier, o2[..|o2| - 1], ws, we);
      if placed1 && placed2 {
        GreedyUnique(earlier, o1[..|o1| - 1], o2[..|o2| - 1], ws, we);
        SameLast(t, o1[..|o1| - 1], o1[|o1| - 1], o2[..|o2| - 1], o2[|o2| - 1], ws, we);
        LastSplit(o1);
        LastSplit(o2);
      } else if placed1 {
        GreedyUnique(earlier, o1[..|o1| - 1], o2, ws, we);
        BestSlotExcludesNone(t, o2, ws, we, SlotOf(o1[|o1| - 1]));
        assert false;
      } else if placed2 {
        GreedyUnique(earlier, o1, o2[..|o2| - 1], ws, we);
        BestSlotExcludesNone(t, o1, ws, we, SlotOf(o2[|o2| - 1]));
        assert false;
      } else {
        GreedyUnique(earlier, o1, o2, ws, we);
      }
    }
  }

  // ---------------------------------------------------------------------
  // Re-sorting by start time

  const StartKey: Placed -> real := (p: Placed) => p.startTime as real

  lemma InsertKeepsDisjoint(x: Placed, s: seq<Placed>)
    requires PairwiseDisjoint(s)
    requires forall i :: 0 <= i < |s| ==> Disjoint(x, s[i]) && Disjoint(s[i], x)
    ensures PairwiseDisjoint(InsertBy(x, s, StartKey))
  {
    var k := InsertSplit(x, s, StartKey);
    var r := InsertBy(x, s, StartKey);
    forall i, j | 0 <= i < |r| && 0 <= j < |r| && i != j ensures Disjoint(r[i], r[j]) {
      if i != k && j != k {
        var i' := if i < k then i else i - 1;
        var j' := if j < k then j else j - 1;
        assert r[i] == s[i'] && r[j] == s[j'];
      } else if i == k {
        var j' := if j < k then j else j - 1;
        assert r[j] == s[j'];
      } else {
        var i' := if i < k then i else i - 1;
        assert r[i] == s[i'];
      }
    }
  }

  /** Sorting by start time keeps the tasks pairwise disjoint. */
  lemma {:induction false} SortKeepsDisjoint(s: seq<Placed>)
    requires PairwiseDisjoint(s)
    ensures PairwiseDisjoint(SortBy(s, StartKey))
  {
    if s != [] {
      var rest := s[1..];
      assert PairwiseDisjoint(rest) by {
        forall i, j | 0 <= i < |rest| && 0 <= j < |rest| && i != j ensures Disjoint(rest[i], rest[j]) {
          assert rest[i] == s[i + 1] && rest[j] == s[j + 1];
        }
      }
      SortKeepsDisjoint(rest);
      var sorted := SortBy(rest, StartKey);
      forall i | 0 <= i < |sorted| ensures Disjoint(s[0], sorted[i]) && Disjoint(sorted[i], s[0]) {
        SortedMember(rest, StartKey, sorted[i]);
        var m :| 0 <= m < |rest| && rest[m] == sorted[i];
        assert s[m + 1] == sorted[i];
      }
      InsertKeepsDisjoint(s[0], sorted);
    }
  }

  /** Sorting by start time keeps the same multiset of tasks. */
  lemma {:induction false} SortKeepsTasks(s: seq<Placed>)
    ensures multiset(TasksOf(SortBy(s, StartKey))) == multiset(TasksOf(s))
  {
    if s != [] {
      SortKeepsTasks(s[1..]);
      InsertByTasks(s[0], SortBy(s[1..], StartKey));
      HeadTasks(s);
    }
  }

  lemma HeadTasks(s: seq<Placed>)
    requires s != []
    ensures multiset(TasksOf(s)) == multiset{s[0].task} + multiset(TasksOf(s[1..]))
  {
    assert TasksOf(s) == [s[0].task] + TasksOf(s[1..]);
  }

  lemma InsertByTasks(x: Placed, s: seq<Placed>)
    ensures multiset(TasksOf(InsertBy(x, s, StartKey))) == multiset(TasksOf(s)) + multiset{x.task}
  {
    var k := InsertSplit(x, s, StartKey);
    InsertTasks(s, k, x);
  }

  /** Inserting one entry adds exactly its task. */
  lemma InsertTasks(s: seq<Placed>, k: nat, p: Placed)
    requires k <= |s|
    ensures multiset(TasksOf(s[..k] + [p] + s[k..])) == multiset(TasksOf(s)) + multiset{p.task}
  {
    TasksOfConcat(s[..k] + [p], s[k..]);
    TasksOfConcat(s[..k], [p]);
    TasksOfConcat(s[..k], s[k..]);
    assert s[..k] + s[k..] == s;
  }

  lemma SortedIsChronological(s: seq<Placed>)
    ensures Chronological(SortBy(s, StartKey))
  {
    var r := SortBy(s, StartKey);
    assert SortedBy(r, StartKey);
    forall i, j | 0 <= i < j < |r| ensures r[i].startTime <= r[j].startTime {
      assert StartKey(r[i]) <= StartKey(r[j]);
    }
  }

  /** Sorting by start time keeps every entry well placed. */
  lemma SortKeepsWellPlaced(s: seq<Placed>, ws: int, we: int)
    requires forall i :: 0 <= i < |s| ==> WellPlaced(s[i], ws, we)
    ensures forall i :: 0 <= i < |SortBy(s, StartKey)| ==> WellPlaced(SortBy(s, StartKey)[i], ws, we)
  {
    var r := SortBy(s, StartKey);
    forall i | 0 <= i < |r| ensures WellPlaced(r[i], ws, we) {
      SortedMember(s, StartKey, r[i]);
    }
  }

  /** What `optimizeSchedule` returns, before and after breaks: at most one
      entry per input task, each a distinct input task well placed in the
      window; before breaks the entries are in start order and pairwise
      non-overlapping; breaks keep the tasks and their order. */
  lemma DriverOutput(ts: seq<Task>, order: seq<Placed>, ws: int, we: int, breakLen: int)
    requires GreedyRun(ts, order, ws, we)
    ensures var byStart := SortBy(order, StartKey);
      var schedule := BreaksAdded(byStart, breakLen);
      |schedule| <= |ts|
      && multiset(TasksOf(schedule)) <= multiset(ts)
      && Chronological(byStart) && PairwiseDisjoint(byStart)
      && (forall i :: 0 <= i < |byStart| ==> WellPlaced(byStart[i], ws, we))
      && TasksOf(schedule) == TasksOf(byStart)
      && Chronological(schedule)
  {
    var byStart := SortBy(order, StartKey);
    GreedySubMultiset(ts, order, ws, we);
    GreedyDisjoint(ts, order, ws, we);
    assert |byStart| == |order| by {
      assert |multiset(byStart)| == |multiset(order)|;
    }
    SortKeepsTasks(order);
    SortKeepsDisjoint(order);
    SortKeepsWellPlaced(order, ws, we);
    SortedIsChronological(order);
    BreaksKeepTasks(byStart, breakLen);
    BreaksKeepStarts(byStart, breakLen);
  }

  // ---------------------------------------------------------------------
  // Break insertion specification

  /** Entry `i` after `addBreaks`: when the gap to the next task is strictly
      between 0 and the break length, its end moves by one full break. */
  function WithBreak(s: seq<Placed>, i: nat, breakLen: int): Placed
    requires i < |s|
  {
    if i + 1 < |s| && 0 < s[i + 1].startTime - s[i].endTime < breakLen
    then s[i].(endTime := s[i].endTime + breakLen)
    else s[i]
  }

  function BreaksAdded(s: seq<Placed>, breakLen: int): (r: seq<Placed>)
    ensures |r| == |s|
  {
    seq(|s|, i requires 0 <= i < |s| => WithBreak(s, i, breakLen))
  }

  /** Only end times change; the last entry never changes. */
  lemma BreaksKeepOtherFields(s: seq<Placed>, breakLen: int, i: nat)
    requires i < |s|
    ensures var r := BreaksAdded(s, breakLen);
      r[i].task == s[i].task && r[i].startTime == s[i].startTime
      && r[i].optimizationScore == s[i].optimizationScore
      && (i == |s| - 1 ==> r[i] == s[i])
  {
  }

  /** A break is added after entry `i` exactly when the gap is small, and it
      then runs past the next start by `breakLen - gap`. */
  lemma BreakOvershoot(s: seq<Placed>, breakLen: int, i: nat)
    requires i + 1 < |s| && breakLen > 0
    ensures var r := BreaksAdded(s, breakLen);
      var gap := s[i + 1].startTime - s[i].endTime;
      (r[i].endTime != s[i].endTime <==> 0 < gap < breakLen)
      && (0 < gap < breakLen ==>
            r[i].endTime == s[i].endTime + breakLen
            && 0 < r[i].endTime - s[i + 1].startTime == breakLen - gap < breakLen)
  {
  }

  /** Breaks change no task and no position. */
  lemma BreaksKeepTasks(s: seq<Placed>, breakLen: int)
    ensures TasksOf(BreaksAdded(s, breakLen)) == TasksOf(s)
  {
  }

  /** Breaks move no start time, so start order survives them. */
  lemma BreaksKeepStarts(s: seq<Placed>, breakLen: int)
    requires Chronological(s)
    ensures Chronological(BreaksAdded(s, breakLen))
  {
    var r := BreaksAdded(s, breakLen);
    forall i, j | 0 <= i < j < |r| ensures r[i].startTime <= r[j].startTime {
      assert r[i].startTime == s[i].startTime && r[j].startTime == s[j].startTime;
    }
  }

  /** Adding breaks twice adds nothing more: every gap it leaves is either
      not small or negative. */
  lemma BreaksIdempotent(s: seq<Placed>, breakLen: int)
    ensures BreaksAdded(BreaksAdded(s, breakLen), breakLen) == BreaksAdded(s, breakLen)
  {
    var r := BreaksAdded(s, breakLen);
    var r2 := BreaksAdded(r, breakLen);
    forall i | 0 <= i < |s| ensures r2[i] == r[i] {
      if i + 1 < |s| {
        assert r[i + 1].startTime == s[i + 1].startTime;
      }
    }
  }

  // ---------------------------------------------------------------------
  // Metrics specification

  /** `tasks.reduce((sum, task) => sum + task.duration, 0)`. */
  function TotalDuration(ts: seq<Task>): int {
    if ts == [] then 0 else TotalDuration(ts[..|ts| - 1]) + ts[|ts| - 1].duration
  }

  function StartHour(p: Placed): int { p.startTime / 60 }

  function EndHour(p: Placed): int { p.endTime / 60 }

  /** Share of `p`'s duration that lands in hour `h`: spread evenly over every
      hour from its start hour to its end hour inclusive. */
  function Share(p: Placed, h: int): real {
    if StartHour(p) <= h <= EndHour(p)
    then p.task.duration as real / (EndHour(p) - StartHour(p) + 1) as real
    else 0.0
  }

  function Load(s: seq<Placed>, h: int): real {
    if s == [] then 0.0 else Load(s[..|s| - 1], h) + Share(s[|s| - 1], h)
  }

  lemma LoadNext(s: seq<Placed>, k: nat)
    requires k < |s|
    ensures forall h :: Load(s[..k + 1], h) == Load(s[..k], h) + Share(s[k], h)
  {
    assert s[..k + 1][..k] == s[..k];
  }

  lemma LoadsComplete(s: seq<Placed>, loads: seq<real>)
    requires |loads| == 24 && forall h :: 0 <= h < 24 ==> loads[h] == Load(s[..|s|], h)
    ensures loads == HourlyLoads(s)
  {
    assert s[..|s|] == s;
  }

  /** The 24-slot `hourlyDistribution`. */
  function HourlyLoads(s: seq<Placed>): (loads: seq<real>)
    ensures |loads| == 24
  {
    seq(24, h requires 0 <= h < 24 => Load(s, h))
  }

  /** `sum over loads of (load - avg)^2`. */
  function SumSquares(loads: seq<real>, avg: real): (r: real)
    ensures r >= 0.0
  {
    if loads == [] then 0.0
    else
      var d := loads[|loads| - 1] - avg;
      SumSquares(loads[..|loads| - 1], avg) + d * d
  }

  predicate NonNegativeDurations(ts: seq<Task>) {
    forall i :: 0 <= i < |ts| ==> ts[i].duration >= 0
  }

  lemma {:induction false} TotalDurationConcat(a: seq<Task>, b: seq<Task>)
    ensures TotalDuration(a + b) == TotalDuration(a) + TotalDuration(b)
    decreases |b|
  {
    if b != [] {
      var b' := b[..|b| - 1];
      assert (a + b)[..|a + b| - 1] == a + b';
      TotalDurationConcat(a, b');
    } else {
      assert a + b == a;
    }
  }

  /** Taking one task out of a list lowers the total by its duration. */
  lemma RemoveOne(ts: seq<Task>, k: nat)
    requires k < |ts|
    ensures TotalDuration(ts) == TotalDuration(ts[..k] + ts[k + 1..]) + ts[k].duration
  {
    var pre, x, post := ts[..k], ts[k], ts[k + 1..];
    SplitAt(ts, k);
    TotalDurationConcat(pre, [x] + post);
    TotalDurationConcat([x], post);
    TotalDurationConcat(pre, post);
    SingleTotal(x);
  }

  /** Taking out the entry at `k` takes one occurrence of it out of the
      multiset and leaves the durations non-negative. */
  lemma RemoveOccurrence(all: seq<Task>, k: nat)
    requires k < |all|
    requires NonNegativeDurations(all)
    ensures multiset(all[..k] + all[k + 1..]) == multiset(all) - multiset{all[k]}
    ensures NonNegativeDurations(all[..k] + all[k + 1..])
  {
    var others := all[..k] + all[k + 1..];
    SplitAt(all, k);
    forall i | 0 <= i < |others| ensures others[i].duration >= 0 {
      if i < k { assert others[i] == all[i]; } else { assert others[i] == all[i + 1]; }
    }
  }

  lemma SingleTotal(x: Task)
    ensures TotalDuration([x]) == x.duration
  {
    assert [x][..0] == [];
  }

  lemma SplitAt<T>(s: seq<T>, k: nat)
    requires k < |s|
    ensures s == s[..k] + ([s[k]] + s[k + 1..])
  {
  }

  /** Among tasks of non-negative duration, a sub-multiset has a total no
      larger than the whole and no smaller than zero. */
  lemma {:induction false} SubTotal(sub: seq<Task>, all: seq<Task>)
    requires multiset(sub) <= multiset(all)
    requires NonNegativeDurations(all)
    ensures 0 <= TotalDuration(sub) <= TotalDuration(all)
    decreases |sub|
  {
    if sub == [] {
      NonNegativeTotal(all);
    } else {
      var x := sub[|sub| - 1];
      var rest := sub[..|sub| - 1];
      assert sub == rest + [x];
      assert x in multiset(all);
      var k :| 0 <= k < |all| && all[k] == x;
      var others := all[..k] + all[k + 1..];
      RemoveOccurrence(all, k);
      assert multiset(rest) <= multiset(others);
      SubTotal(rest, others);
      RemoveOne(all, k);
    }
  }

  lemma {:induction false} NonNegativeTotal(ts: seq<Task>)
    requires NonNegativeDurations(ts)
    ensures TotalDuration(ts) >= 0
    decreases |ts|
  {
    if ts != [] {
      NonNegativeTotal(ts[..|ts| - 1]);
    }
  }

  /** When the scheduled tasks are drawn from `tasks`, whose durations are
      non-negative, coverage is a fraction between 0 and 1. */
  lemma CoverageBounded(schedule: seq<Placed>, tasks: seq<Task>, ws: int, we: int)
    requires schedule != [] && MetricsDefined(schedule, tasks, ws, we)
    requires multiset(TasksOf(schedule)) <= multiset(tasks)
    requires NonNegativeDurations(tasks)
    ensures 0.0 <= MetricsOf(schedule, tasks, ws, we).coverage <= 1.0
  {
    SubTotal(TasksOf(schedule), tasks);
    FractionBounded(TotalDuration(TasksOf(schedule)), TotalDuration(tasks));
  }

  lemma FractionBounded(part: int, whole: int)
    requires 0 <= part <= whole && whole != 0
    ensures 0.0 <= part as real / whole as real <= 1.0
  {
  }

  /** Preconditions under which `calculateMetrics` yields numbers rather than
      NaN or Infinity, and stays inside its 24-slot array. */
  predicate MetricsDefined(schedule: seq<Placed>, tasks: seq<Task>, ws: int, we: int) {
    TotalDuration(tasks) != 0 && TotalDuration(TasksOf(schedule)) != 0 && ws < we && WithinDay(schedule)
  }

  /** Every hour a task touches is one of the 24 slots of the histogram. */
  predicate WithinDay(schedule: seq<Placed>) {
    forall i :: 0 <= i < |schedule| && StartHour(schedule[i]) <= EndHour(schedule[i]) ==> EndHour(schedule[i]) < 24
  }

  /** The metrics of a schedule as the source defines them. */
  function MetricsOf(schedule: seq<Placed>, tasks: seq<Task>, ws: int, we: int): (m: Metrics)
    requires schedule != [] ==> MetricsDefined(schedule, tasks, ws, we)
    ensures schedule == [] ==> m == Metrics(0.0, 0.0, 0.0)
    ensures m.balance >= 0.0
    ensures schedule != [] ==> m.efficiency == 0.4 * m.coverage + 0.3 * m.balance + 0.3
  {
    if schedule == [] then Metrics(0.0, 0.0, 0.0)
    else
      var scheduled := TotalDuration(TasksOf(schedule));
      var coverage := scheduled as real / TotalDuration(tasks) as real;
      var avg := scheduled as real / ((we - ws) as real / 60.0);
      var balance := Balance(HourlyLoads(schedule), avg);
      Metrics(coverage * 0.4 + balance * 0.3 + 0.3, coverage, balance)
  }

  /** `max(0, 1 - variance / avg^2)` with `variance` the mean square
      deviation over the 24 hours. */
  function Balance(loads: seq<real>, avg: real): (b: real)
    requires avg != 0.0
    ensures b >= 0.0
    ensures b >= 1.0 - SumSquares(loads, avg) / 24.0 / (avg * avg)
  {
    var variance := SumSquares(loads, avg) / 24.0;
    MaxReal(0.0, 1.0 - variance / (avg * avg))
  }

  // ---------------------------------------------------------------------
  // The scheduler object

  /** What the scan of `findOptimalSlot` knows before examining candidate
      `s`: `bestSlot` and `bestScore` describe the candidates below `s`. */
  ghost predicate ScanState(t: Task, schedule: seq<Placed>, ws: int, we: int, s: nat,
                            best: Option<Slot>, bestScore: real)
    requires TaskValid(t)
  {
    OnGrid(ws, s)
    && bestScore == (if best.None? then -1.0 else best.value.score)
    && (best.None? ==> NoneBelow(t, schedule, ws, we, s))
    && (best.Some? ==> BestBelow(t, schedule, ws, we, s, best.value))
  }

  /** Past the last candidate, the scan state is the answer. */
  lemma ScanDone(t: Task, schedule: seq<Placed>, ws: nat, we: int, s: nat, best: Option<Slot>, bestScore: real)
    requires TaskValid(t) && s > we - t.duration && ScanState(t, schedule, ws, we, s, best, bestScore)
    ensures best.None? <==> NoSlot(t, schedule, ws, we)
    ensures best.Some? ==> IsBestSlot(t, schedule, ws, we, best.value)
  {
    if best.None? {
      NoneAtEnd(t, schedule, ws, we, s);
    } else {
      BestAtEnd(t, schedule, ws, we, s, best.value);
    }
  }

  /** One iteration of the loop of `findOptimalSlot`: the candidate starting
      at `startMinutes` is kept when it fits the window, does not conflict
      and strictly beats the best score so far. */
  method ScanCandidate(task: Task, schedule: seq<Placed>, workStartMinutes: nat, workEndMinutes: int,
                       startMinutes: nat, bestSlot: Option<Slot>, bestScore: real)
    returns (bestSlot': Option<Slot>, bestScore': real)
    requires TaskValid(task)
    requires ScanState(task, schedule, workStartMinutes, workEndMinutes, startMinutes, bestSlot, bestScore)
    ensures ScanState(task, schedule, workStartMinutes, workEndMinutes, startMinutes + SlotStep, bestSlot', bestScore')
  {
    bestSlot', bestScore' := bestSlot, bestScore;
    var endMinutes := startMinutes + task.duration;
    var hasConflict := HasConflict(schedule, startMinutes, endMinutes);
    if !hasConflict && endMinutes <= workEndMinutes {
      var totalScore := CandidateScore(task, startMinutes);
      SlotScorePositive(task, startMinutes);
      if totalScore > bestScore {
        bestScore' := totalScore;
        bestSlot' := Some(Slot(startMinutes, endMinutes, totalScore));
      }
    }
    ScanStep(task, schedule, workStartMinutes, workEndMinutes, startMinutes, bestSlot, bestSlot');
    GridNext(workStartMinutes, startMinutes);
  }

  /** The loop of `findOptimalSlot`: scan the 15-minute grid from
      `workStartMinutes`, skip conflicting candidates and keep the first best
      score. */
  method ScanWindow(task: Task, schedule: seq<Placed>, workStartMinutes: nat, workEndMinutes: int)
    returns (best: Option<Slot>)
    requires TaskValid(task)
    ensures best.None? <==> NoSlot(task, schedule, workStartMinutes, workEndMinutes)
    ensures best.Some? ==> IsBestSlot(task, schedule, workStartMinutes, workEndMinutes, best.value)
  {
    best := None;
    var bestScore := -1.0;
    var startMinutes: nat := workStartMinutes;
    while startMinutes <= workEndMinutes - task.duration
      invariant ScanState(task, schedule, workStartMinutes, workEndMinutes, startMinutes, best, bestScore)
      decreases workEndMinutes - task.duration - startMinutes
    {
      best, bestScore := ScanCandidate(task, schedule, workStartMinutes, workEndMinutes, startMinutes, best, bestScore);
      startMinutes := startMinutes + SlotStep;
    }
    ScanDone(task, schedule, workStartMinutes, workEndMinutes, startMinutes, best, bestScore);
  }

  /** The histogram loop of `calculateMetrics`: each task's duration is
      spread evenly over the hours from its start hour to its end hour. */
  method HourlyDistribution(schedule: seq<Placed>) returns (hourlyDistribution: array<real>)
    requires WithinDay(schedule)
    ensures fresh(hourlyDistribution) && hourlyDistribution[..] == HourlyLoads(schedule)
  {
    hourlyDistribution := new real[24](_ => 0.0);
    var k := 0;
    while k < |schedule|
      invariant 0 <= k <= |schedule|
      invariant forall h :: 0 <= h < 24 ==> hourlyDistribution[h] == Load(schedule[..k], h)
    {
      var p := schedule[k];
      var startHour, endHour := StartHour(p), EndHour(p);
      var hour := startHour;
      while hour <= endHour
        invariant startHour <= hour && (startHour <= endHour ==> hour <= endHour + 1)
        invariant forall h :: 0 <= h < 24 ==>
          hourlyDistribution[h] == Load(schedule[..k], h) + (if startHour <= h < hour then Share(p, h) else 0.0)
      {
        hourlyDistribution[hour] := hourlyDistribution[hour]
          + p.task.duration as real / (endHour - startHour + 1) as real;
        hour := hour + 1;
      }
      LoadNext(schedule, k);
      k := k + 1;
    }
    LoadsComplete(schedule, hourlyDistribution[..]);
  }

  class AIScheduler {
    const workingHours: WorkingHours
    /** Minutes of break rounded into a small gap. */
    const breakDuration: int

    constructor(workingHours: WorkingHours)
      ensures this.workingHours == workingHours && breakDuration == 15
    {
      this.workingHours := workingHours;
      breakDuration := 15;
    }

    /** `findOptimalSlot`: parse the working window, then scan it. */
    method FindOptimalSlot(task: Task, schedule: seq<Placed>, workStart: string, workEnd: string)
      returns (best: Option<Slot>)
      requires TaskValid(task) && WellFormed(workStart) && WellFormed(workEnd)
      ensures best.None? <==> NoSlot(task, schedule, TimeToMinutes(workStart), TimeToMinutes(workEnd))
      ensures best.Some? ==> IsBestSlot(task, schedule, TimeToMinutes(workStart), TimeToMinutes(workEnd), best.value)
    {
      var workStartMinutes := TimeToMinutes(workStart);
      var workEndMinutes := TimeToMinutes(workEnd);
      best := ScanWindow(task, schedule, workStartMinutes, workEndMinutes);
    }

    /** `optimizeSchedule`: sort by urgency at the start of the working day,
        place greedily, re-sort by start time and add breaks. `order` is the
        schedule in placement order. */
    method OptimizeSchedule(tasks: seq<Task>) returns (schedule: seq<Placed>, ghost order: seq<Placed>)
      requires WellFormed(workingHours.start) && WellFormed(workingHours.end)
      requires forall i :: 0 <= i < |tasks| ==> TaskValid(tasks[i])
      ensures tasks == [] ==> schedule == []
      ensures |schedule| <= |tasks| && multiset(TasksOf(schedule)) <= multiset(tasks)
      ensures Chronological(schedule)
      ensures var ws, we := TimeToMinutes(workingHours.start), TimeToMinutes(workingHours.end);
        GreedyRun(SortBy(tasks, UrgencyKey(workingHours.start)), order, ws, we)
        && schedule == BreaksAdded(SortBy(order, StartKey), breakDuration)
    {
      order := [];
      if |tasks| == 0 {
        return [], [];
      }
      var ws, we := TimeToMinutes(workingHours.start), TimeToMinutes(workingHours.end);
      var sortedTasks := SortBy(tasks, UrgencyKey(workingHours.start));
      SortedTasksValid(tasks, workingHours.start);
      var placed: seq<Placed> := [];
      for i := 0 to |sortedTasks|
        invariant GreedyRun(sortedTasks[..i], placed, ws, we)
      {
        var task := sortedTasks[i];
        var optimalSlot := FindOptimalSlot(task, placed, workingHours.start, workingHours.end);
        ghost var before := placed;
        if optimalSlot.Some? {
          placed := placed + [Place(task, optimalSlot.value)];
        }
        GreedyExtend(sortedTasks[..i], task, before, optimalSlot, ws, we);
        PrefixNext(sortedTasks, i);
      }
      PrefixAll(sortedTasks);
      order := placed;
      var byStart := SortBy(placed, StartKey);
      schedule := AddBreaks(byStart);
      DriverOutputOfTasks(tasks, UrgencyKey(workingHours.start), placed, ws, we, breakDuration);
    }

    /** `addBreaks`: copy the schedule, extending an entry's end by a full
        break when the gap to the next entry is positive but shorter than one. */
    method AddBreaks(schedule: seq<Placed>) returns (result: seq<Placed>)
      ensures |schedule| <= 1 ==> result == schedule
      ensures result == BreaksAdded(schedule, breakDuration)
    {
      if |schedule| <= 1 {
        return schedule;
      }
      result := [];
      var i := 0;
      while i < |schedule|
        invariant 0 <= i <= |schedule| && |result| == i
        invariant forall k :: 0 <= k < i ==> result[k] == WithBreak(schedule, k, breakDuration)
      {
        result := result + [schedule[i]];
        if i < |schedule| - 1 {
          var currentEnd := schedule[i].endTime;
          var nextStart := schedule[i + 1].startTime;
          var gap := nextStart - currentEnd;
          if gap > 0 && gap < breakDuration {
            result := result[i := result[i].(endTime := currentEnd + breakDuration)];
          }
        }
        i := i + 1;
      }
    }

    /** `calculateMetrics`: coverage, the hourly load histogram, balance and
        efficiency. */
    method CalculateMetrics(schedule: seq<Placed>, tasks: seq<Task>) returns (m: Metrics)
      requires WellFormed(workingHours.start) && WellFormed(workingHours.end)
      requires schedule != [] ==> MetricsDefined(schedule, tasks,
        TimeToMinutes(workingHours.start), TimeToMinutes(workingHours.end))
      ensures m == MetricsOf(schedule, tasks, TimeToMinutes(workingHours.start), TimeToMinutes(workingHours.end))
    {
      if |schedule| == 0 {
        return Metrics(0.0, 0.0, 0.0);
      }
      var totalTaskTime := TotalDuration(tasks);
      var scheduledTime := TotalDuration(TasksOf(schedule));
      var coverage := scheduledTime as real / totalTaskTime as real;

      var hourlyDistribution := HourlyDistribution(schedule);

      var ws, we := TimeToMinutes(workingHours.start), TimeToMinutes(workingHours.end);
      var workingMinutes := we - ws;
      var averageLoad := scheduledTime as real / (workingMinutes as real / 60.0);
      var balance := Balance(hourlyDistribution[..], averageLoad);
      var efficiency := coverage * 0.4 + balance * 0.3 + (if |schedule| > 0 then 0.3 else 0.0);
      m := Metrics(efficiency, coverage, balance);
    }
  }

  /** `DriverOutput` restated against the unsorted input. */
  lemma DriverOutputOfTasks(tasks: seq<Task>, key: Task --> real, order: seq<Placed>, ws: int, we: int, breakLen: int)
    requires KeysDefined(tasks, key) && GreedyRun(SortBy(tasks, key), order, ws, we)
    ensures var schedule := BreaksAdded(SortBy(order, StartKey), breakLen);
      |schedule| <= |tasks| && multiset(TasksOf(schedule)) <= multiset(tasks) && Chronological(schedule)
  {
    var sorted := SortBy(tasks, key);
    DriverOutput(sorted, order, ws, we, breakLen);
    assert |sorted| == |tasks| by {
      assert |multiset(sorted)| == |multiset(tasks)|;
    }
  }

  /** Sorting keeps every task valid. */
  lemma SortedTasksValid(tasks: seq<Task>, workStart: string)
    requires WellFormed(workStart) && forall i :: 0 <= i < |tasks| ==> TaskValid(tasks[i])
    ensures forall i :: 0 <= i < |SortBy(tasks, UrgencyKey(workStart))| ==> TaskValid(SortBy(tasks, UrgencyKey(workStart))[i])
  {
    var sorted := SortBy(tasks, UrgencyKey(workStart));
    forall i | 0 <= i < |sorted| ensures TaskValid(sorted[i]) {
      SortedMember(tasks, UrgencyKey(workStart), sorted[i]);
    }
  }

  /** The placement order of `optimizeSchedule`: the input tasks rearranged
      so that urgency at the start of the working day never increases. */
  lemma UrgencyOrder(tasks: seq<Task>, workStart: string)
    requires WellFormed(workStart) && forall i :: 0 <= i < |tasks| ==> TaskValid(tasks[i])
    ensures var sorted := SortBy(tasks, UrgencyKey(workStart));
      multiset(sorted) == multiset(tasks)
      && (forall i :: 0 <= i < |sorted| ==> TaskValid(sorted[i]))
      && forall i, j :: 0 <= i < j < |sorted| ==>
           CalculateUrgency(sorted[i], workStart) >= CalculateUrgency(sorted[j], workStart)
  {
    var key := UrgencyKey(workStart);
    var sorted := SortBy(tasks, key);
    SortedTasksValid(tasks, workStart);
    forall i, j | 0 <= i < j < |sorted|
      ensures CalculateUrgency(sorted[i], workStart) >= CalculateUrgency(sorted[j], workStart)
    {
      assert key(sorted[i]) <= key(sorted[j]);
    }
  }

  /** Comparator key of the urgency sort: descending urgency at the start of
      the working day. */
  function UrgencyKey(workStart: string): Task --> real {
    t requires TaskValid(t) && WellFormed(workStart) => -CalculateUrgency(t, workStart)
  }
}
