/** Building a query result from loaded day records (gsiot/src/DataStoreMgr.cpp 1940-2092): the
    loop that merges their statistics and feeds their slots to the list filter, and the marking
    of days that have no record. */
module QueryMerge {
  import opened Stats
  import opened Lookup
  import opened DayRecord
  import opened QueryList
  import Months

  datatype QueryReturn = Success | ResLimit

  // ---------- the slots a query visits ----------

  function SlotOf(row: DayRow, i: nat): Slot
    requires |row.v1k| == SLOTS && i < SLOTS
  {
    Slot(SlotTime(row.dayBegin, i), row.SlotValid(i), row.v1k[i])
  }

  /** The slots i, i + step, ... of one day that lie in [begin, end]. */
  function SlotsFrom(row: DayRow, i: nat, step: nat, begin: int, end: int): seq<Slot>
    requires |row.v1k| == SLOTS && step > 0
    decreases SLOTS - i
  {
    if i >= SLOTS then []
    else
      var rest := SlotsFrom(row, i + step, step, begin, end);
      if begin <= SlotTime(row.dayBegin, i) <= end then [SlotOf(row, i)] + rest else rest
  }

  ghost predicate Whole(days: seq<DayRow>) {
    forall d :: 0 <= d < |days| ==> |days[d].v1k| == SLOTS
  }

  /** The slots of the valid days from position d on. */
  function VisitedFrom(days: seq<DayRow>, d: nat, step: nat, begin: int, end: int): seq<Slot>
    requires Whole(days) && step > 0
    decreases |days| - d
  {
    if d >= |days| then []
    else
      var rest := VisitedFrom(days, d + 1, step, begin, end);
      if days[d].stat.valid then SlotsFrom(days[d], 0, step, begin, end) + rest else rest
  }

  ghost predicate DaysApart(days: seq<DayRow>) {
    && (forall d :: 0 <= d < |days| ==> days[d].dayBegin > 0)
    && (forall d, e :: 0 <= d < e < |days| ==> DayBefore(days, d, e))
  }

  ghost predicate DayBefore(days: seq<DayRow>, d: int, e: int)
    requires 0 <= d < |days| && 0 <= e < |days|
  {
    days[d].dayBegin + 86400 <= days[e].dayBegin
  }

  /** The slots all lie in [lo, hi). */
  ghost predicate Within(slots: seq<Slot>, lo: int, hi: int) {
    forall i :: 0 <= i < |slots| ==> lo <= slots[i].time < hi
  }

  lemma AscendingJoin(a: seq<Slot>, b: seq<Slot>, lo: int, mid: int)
    requires Ascending(a) && Ascending(b) && Within(a, lo, mid) && forall i :: 0 <= i < |b| ==> mid <= b[i].time
    ensures Ascending(a + b)
  {
    var s := a + b;
    forall i | 0 <= i < |s| ensures s[i] == if i < |a| then a[i] else b[i - |a|] {}
    forall i, j | 0 <= i < j < |s| ensures Sooner(s, i, j) {
      if j < |a| {
        assert Sooner(a, i, j);
      } else if i >= |a| {
        assert Sooner(b, i - |a|, j - |a|);
      }
    }
  }

  lemma {:induction false} SlotsAscending(row: DayRow, i: nat, step: nat, begin: int, end: int)
    requires |row.v1k| == SLOTS && step > 0 && row.dayBegin > 0
    ensures Ascending(SlotsFrom(row, i, step, begin, end))
    ensures Within(SlotsFrom(row, i, step, begin, end), SlotTime(row.dayBegin, i), row.dayBegin + DAY)
    decreases SLOTS - i
  {
    if i < SLOTS {
      SlotsAscending(row, i + step, step, begin, end);
      if begin <= SlotTime(row.dayBegin, i) <= end {
        SlotJoin(SlotOf(row, i), SlotsFrom(row, i + step, step, begin, end), row.dayBegin + DAY);
      }
    }
  }

  lemma SlotJoin(s: Slot, rest: seq<Slot>, hi: int)
    requires 0 < s.time < hi && Ascending(rest) && Within(rest, s.time + 1, hi)
    ensures Ascending([s] + rest) && Within([s] + rest, s.time, hi)
  {
    AscendingJoin([s], rest, s.time, s.time + 1);
  }

  lemma {:induction false} VisitedAscending(days: seq<DayRow>, d: nat, step: nat, begin: int, end: int)
    requires Whole(days) && DaysApart(days) && step > 0
    ensures Ascending(VisitedFrom(days, d, step, begin, end))
    ensures forall i :: 0 <= i < |VisitedFrom(days, d, step, begin, end)| ==>
              d < |days| && days[d].dayBegin <= VisitedFrom(days, d, step, begin, end)[i].time
    decreases |days| - d
  {
    if d < |days| {
      VisitedAscending(days, d + 1, step, begin, end);
      SlotsAscending(days[d], 0, step, begin, end);
      var rest := VisitedFrom(days, d + 1, step, begin, end);
      assert d + 1 < |days| ==> DayBefore(days, d, d + 1);
      AscendingJoin(SlotsFrom(days[d], 0, step, begin, end), rest, days[d].dayBegin, days[d].dayBegin + DAY);
    }
  }

  /** Some day record covers time t. */
  predicate DayPresent(days: seq<DayRow>, t: int) {
    exists d :: 0 <= d < |days| && days[d].dayBegin <= t < days[d].dayBegin + DAY
  }

  /** s is half hour k of the day, and lies in [begin, end]. */
  ghost predicate HalfHourOf(row: DayRow, s: Slot, k: nat, begin: int, end: int)
    requires |row.v1k| == 48
  {
    && k < 48 && s.time == row.dayBegin + k * 1800 && begin <= s.time <= end
    && s.valid == row.SlotValid(k) && s.value == row.v1k[k]
  }

  lemma ModShift(a: nat, n: nat)
    requires n > 0
    ensures a >= n ==> (a - n) % n == a % n
    ensures a < n ==> a % n == a
  {
    if a >= n {
      var q, r := a / n, a % n;
      assert a == q * n + r;
      Distribute(n, q - 1, 1);
      DivIs(a - n, n, q - 1, r);
    }
  }

  lemma {:induction false} SlotsExactly(row: DayRow, i: nat, step: nat, begin: int, end: int, s: Slot)
    requires |row.v1k| == 48 && step > 0
    ensures s in SlotsFrom(row, i, step, begin, end) <==>
            exists k: nat :: k >= i && (k - i) % step == 0 && HalfHourOf(row, s, k, begin, end)
    decreases SLOTS - i
  {
    if i < SLOTS {
      SlotsExactly(row, i + step, step, begin, end, s);
      if begin <= SlotTime(row.dayBegin, i) <= end && s == SlotOf(row, i) {
        ModShift(0, step);
        assert (i - i) % step == 0 && HalfHourOf(row, s, i, begin, end);
      }
      forall k: nat | k > i && HalfHourOf(row, s, k, begin, end)
        ensures (k - i) % step == 0 <==> k >= i + step && (k - (i + step)) % step == 0
      {
        ModShift(k - i, step);
        assert k - (i + step) == k - i - step;
      }
      if s in SlotsFrom(row, i + step, step, begin, end) {
        var k: nat :| k >= i + step && (k - (i + step)) % step == 0 && HalfHourOf(row, s, k, begin, end);
        assert (k - i) % step == 0;
      }
    }
  }

  /** s is half hour k of day d, a valid one, and lies in [begin, end]. */
  ghost predicate IsSlotOf(days: seq<DayRow>, s: Slot, d: nat, k: nat, begin: int, end: int)
    requires Whole(days)
  {
    d < |days| && days[d].stat.valid && HalfHourOf(days[d], s, k, begin, end)
  }

  /** The visited slots are exactly every step-th half hour, from the beginning of the day on, of the
      valid days, as far as it lies in the query's window. */
  lemma {:induction false} VisitedExactly(days: seq<DayRow>, d: nat, step: nat, begin: int, end: int, s: Slot)
    requires Whole(days) && step > 0
    ensures s in VisitedFrom(days, d, step, begin, end) <==>
            exists e: nat, k: nat :: e >= d && k % step == 0 && IsSlotOf(days, s, e, k, begin, end)
    decreases |days| - d
  {
    if d < |days| {
      VisitedExactly(days, d + 1, step, begin, end, s);
      SlotsExactly(days[d], 0, step, begin, end, s);
      if days[d].stat.valid && s in SlotsFrom(days[d], 0, step, begin, end) {
        var k: nat :| (k - 0) % step == 0 && HalfHourOf(days[d], s, k, begin, end);
        assert k % step == 0 && IsSlotOf(days, s, d, k, begin, end);
      }
      if e: nat, k: nat :| e >= d && k % step == 0 && IsSlotOf(days, s, e, k, begin, end) {
        assert e == d ==> (k - 0) % step == 0 && HalfHourOf(days[d], s, k, begin, end);
      }
    }
  }

  /** Where day d was recorded from srcs[d] at time nows[d], every visited slot carries the validity and value of
      the sample chosen from the raw list for its time. */
  lemma VisitedShowsSamples(days: seq<DayRow>, srcs: seq<seq<Sample>>, nows: seq<int>, step: nat, begin: int, end: int,
                            s: Slot)
    requires Whole(days) && step > 0 && |srcs| == |nows| == |days|
    requires forall d :: 0 <= d < |days| && days[d].stat.valid ==> Records(days[d], srcs[d], nows[d])
    requires s in VisitedFrom(days, 0, step, begin, end)
    ensures exists d :: 0 <= d < |days| && days[d].stat.valid && days[d].dayBegin <= s.time < days[d].dayBegin + 86400
                        && var x := if s.time > nows[d] then Sample(0, 0, 0)
                            else GetValueForSpecTime(s.time, srcs[d], 2100, 600).1;
                           s.valid == x.Valid() && s.value == x.value
  {
    VisitedExactly(days, 0, step, begin, end, s);
    var d: nat, i: nat :| i % step == 0 && IsSlotOf(days, s, d, i, begin, end);
    assert d < |days| && days[d].stat.valid;
    assert Records(days[d], srcs[d], nows[d]);
    assert SlotRecords(days[d], srcs[d], nows[d], i);
  }

  // ---------- days without a record ----------

  /** The beginnings of the days first + 1 .. first + n - 1 that end too early and have no record. */
  function GapTimes(days: seq<DayRow>, first: int, end: int, n: int): set<int> {
    if n <= 1 then {}
    else
      var t := first + (n - 1) * DAY;
      GapTimes(days, first, end, n - 1) + if t < end && !DayPresent(days, t) then {t} else {}
  }

  /** No day record covers time t. */
  ghost predicate Uncovered(days: seq<DayRow>, t: int) {
    forall d :: 0 <= d < |days| ==> !(days[d].dayBegin <= t < days[d].dayBegin + 86400)
  }

  /** t is the beginning of day k behind `first`, in front of the query's end and without a record. */
  ghost predicate MissingDay(days: seq<DayRow>, first: int, end: int, t: int, k: nat) {
    k >= 1 && t == first + k * 86400 < end && Uncovered(days, t)
  }

  lemma {:induction false} GapTimesAre(days: seq<DayRow>, first: int, end: int, n: int, t: int)
    ensures t in GapTimes(days, first, end, n) <==> exists k: nat :: k < n && MissingDay(days, first, end, t, k)
    decreases n
  {
    if n > 1 {
      GapTimesAre(days, first, end, n - 1, t);
      if t == first + (n - 1) * DAY && t in GapTimes(days, first, end, n) {
        assert MissingDay(days, first, end, t, n - 1);
      }
    }
  }

  /** No more days are looked at than the window is long, and one: the k-th behind the first if k - 1 whole
      days fit into the window. */
  ghost predicate LookedAt(begin: int, end: int, k: nat) {
    (k - 1) * 86400 <= end - begin || (k == 1 && begin - end < 86400)
  }

  /** Whatever the first day is, exactly the missing days among those looked at are marked. */
  lemma MarkedDays(days: seq<DayRow>, first: int, begin: int, end: int, t: int)
    ensures t in GapTimes(days, first, end, DayCount(begin, end)) <==>
            exists k: nat :: LookedAt(begin, end, k) && MissingDay(days, first, end, t, k)
  {
    var n := DayCount(begin, end);
    GapTimesAre(days, first, end, n, t);
    TruncDivBounds(end - begin, DAY);
    forall k: nat | k >= 1 ensures k < n <==> LookedAt(begin, end, k) {
      assert (n - 2) * DAY == TruncDiv(end - begin, DAY) * DAY;
    }
  }

  /** For a first day that reaches into the window, the marked days are exactly the later days in front
      of the query's end that no record covers. */
  lemma MarkedExactly(days: seq<DayRow>, first: int, begin: int, end: int, t: int)
    requires first > begin - 86400
    ensures t in GapTimes(days, first, end, DayCount(begin, end)) <==>
            exists k: nat :: MissingDay(days, first, end, t, k)
  {
    var n := DayCount(begin, end);
    GapTimesAre(days, first, end, n, t);
    TruncDivBounds(end - begin, DAY);
    if k: nat :| MissingDay(days, first, end, t, k) {
      assert k * DAY < end - begin + DAY;
      assert k < n;
    }
  }

  /** No visited slot has the time of a marked day. */
  lemma GapMissesSlot(days: seq<DayRow>, step: nat, begin: int, end: int, first: int, n: int, s: Slot)
    requires Whole(days) && step > 0
    requires s in VisitedFrom(days, 0, step, begin, end)
    ensures s.time !in GapTimes(days, first, end, n)
  {
    VisitedExactly(days, 0, step, begin, end, s);
    var d: nat, k: nat :| IsSlotOf(days, s, d, k, begin, end);
    GapTimesAre(days, first, end, n, s.time);
  }

  function DayCount(begin: int, end: int): int {
    TruncDiv(end - begin, DAY) + 2
  }

  /** An invalid point is put at the beginning of every missing day, and the rest stays as it is. */
  ghost predicate MarksMissing(before: map<int, Sample>, after: map<int, Sample>, days: seq<DayRow>, first: int,
                               end: int) {
    && (forall t :: t in after <==> t in before || Missing(days, first, end, t))
    && forall t :: t in after ==> after[t] == if Missing(days, first, end, t) then Sample(t, 0, 0) else before[t]
  }

  ghost predicate Missing(days: seq<DayRow>, first: int, end: int, t: int) {
    exists k: nat :: MissingDay(days, first, end, t, k)
  }

  lemma MarkingMarks(list: map<int, Sample>, days: seq<DayRow>, first: int, begin: int, end: int)
    requires first > begin - 86400
    ensures MarksMissing(list, WithGaps(list, GapTimes(days, first, end, DayCount(begin, end))), days, first, end)
  {
    var gaps := GapTimes(days, first, end, DayCount(begin, end));
    forall t ensures t in gaps <==> Missing(days, first, end, t) {
      MarkedExactly(days, first, begin, end, t);
    }
  }

  /** Day d is the first valid one. */
  ghost predicate FirstValid(days: seq<DayRow>, d: nat) {
    d < |days| && days[d].stat.valid && forall e :: 0 <= e < d ==> !days[e].stat.valid
  }

  lemma {:induction false} FirstDayIs(days: seq<DayRow>, d: nat)
    requires FirstValid(days, d)
    ensures FirstDay(days) == days[d].dayBegin
    decreases d
  {
    if d > 0 {
      assert !days[0].stat.valid;
      FirstDayIs(days[1..], d - 1);
    }
  }

  function Rows(days: seq<DayRow>): (rows: seq<StatV>)
    ensures |rows| == |days|
  {
    seq(|days|, i requires 0 <= i < |days| => days[i].stat)
  }

  /** The beginning of the first valid day. */
  function FirstDay(days: seq<DayRow>): int {
    if days == [] then 0 else if days[0].stat.valid then days[0].dayBegin else FirstDay(days[1..])
  }

  lemma {:induction false} FirstDayPrefix(days: seq<DayRow>, n: nat)
    requires n < |days| && forall i :: 0 <= i < |days| ==> days[i].dayBegin > 0
    ensures FirstDay(days[..n + 1]) ==
            if FirstDay(days[..n]) != 0 then FirstDay(days[..n]) else if days[n].stat.valid then days[n].dayBegin else 0
    decreases n
  {
    var a, b := days[..n + 1], days[..n];
    if n > 0 {
      FirstDayPrefix(days[1..], n - 1);
      assert a[1..] == days[1..][..n] && b[1..] == days[1..][..n - 1];
    } else {
      assert a[1..] == [];
    }
  }

  // ---------- the result record ----------

  class QueryStat {
    const begin: int
    const end: int
    const stat: Stat
    var tempSum: int
    var list: map<int, Sample>

    constructor (begin: int, end: int)
      ensures this.begin == begin && this.end == end && fresh(stat)
      ensures stat.View() == EMPTY && tempSum == 0 && list == map[]
    {
      this.begin, this.end := begin, end;
      stat := new Stat();
      tempSum := 0;
      list := map[];
    }

    /** The loop variables and the list are those of the filter state f. */
    ghost predicate At(f: Filter, hasValid: bool, prevValid: bool, prev: Sample)
      reads this
    {
      f.hasValid == hasValid && f.prevValid == prevValid && f.prev == prev && f.list == list
    }

    /** The loop body for one slot; `over` reports that the list has outgrown its limit. */
    method TakeSlot(s: Slot, c: Cfg, hasValid: bool, prevValid: bool, prev: Sample, ghost f: Filter)
      returns (hasValid': bool, prevValid': bool, prev': Sample, over: bool)
      requires At(f, hasValid, prevValid, prev) && !f.stopped
      modifies this`list
      ensures At(Step(f, s, c), hasValid', prevValid', prev') && over == Step(f, s, c).stopped
    {
      hasValid', prevValid', prev', over := hasValid, prevValid, prev, false;
      if s.valid {
        if !hasValid {
          hasValid' := true;
        }
      } else if !hasValid {
        return;
      }
      var doAdd := true;
      if c.removeInvalid {
        if !prevValid && !s.valid {
          doAdd := false;
        }
      }
      var cur := Sample(s.time, if s.valid then FLAG_NORM else 0, s.value);
      if doAdd && c.spanrate != 0 {
        if prev.time != 0 {
          if prev.flag == cur.flag {
            if c.byGrade {
              if Diff(c, cur.value, prev.value) < c.spanrate {
                return;
              }
            } else {
              if Diff(c, cur.value, prev.value) < c.spanrate {
                doAdd := false;
              }
            }
          }
        }
      }
      if doAdd {
        list := list[s.time := cur];
        prev' := cur;
        if c.limited {
          if |list| > c.max {
            over := true;
            return;
          }
        }
      }
      prevValid' := s.valid;
    }

    /** The inner loop: the slots of one day. */
    method TakeDay(day: DayRow, step: nat, c: Cfg, hasValid: bool, prevValid: bool, prev: Sample, ghost f: Filter)
      returns (hasValid': bool, prevValid': bool, prev': Sample, over: bool, ghost f': Filter)
      requires |day.v1k| == SLOTS && step > 0
      requires At(f, hasValid, prevValid, prev) && !f.stopped
      modifies this`list
      ensures f' == RunDay(f, day, 0, step, begin, end, c)
      ensures At(f', hasValid', prevValid', prev') && over == f'.stopped
    {
      hasValid', prevValid', prev', over, f' := hasValid, prevValid, prev, false, f;
      ghost var goal := RunDay(f, day, 0, step, begin, end, c);
      assert Heads(f, day, 0, step, begin, end, c, goal);
      var i := 0;
      while i < SLOTS
        invariant 0 <= i && !over
        invariant At(f', hasValid', prevValid', prev') && !f'.stopped
        invariant Heads(f', day, i, step, begin, end, c, goal)
        decreases SLOTS - i
      {
        var t := day.dayBegin + i * 30 * 60;
        HeadsOn(f', day, i, step, begin, end, c, goal);
        if begin <= t <= end {
          var s := Slot(t, day.SlotValid(i), day.v1k[i]);
          assert s == SlotOf(day, i);
          hasValid', prevValid', prev', over := TakeSlot(s, c, hasValid', prevValid', prev', f');
          f' := Step(f', s, c);
          if over {
            return;
          }
        }
        i := i + step;
      }
      HeadsEnd(f', day, i, step, begin, end, c, goal);
    }

    /** A valid day enters the running statistic. */
    method AddDay(d: StatV)
      requires d.valid
      modifies this`tempSum, stat
      ensures stat.View() == MergeStep(old(stat.View()), d) && tempSum == old(tempSum) + d.avg * d.num
    {
      tempSum := tempSum + d.avg * d.num;
      stat.num := stat.num + d.num;
      stat.AnalyseSub(d, 0, 0);
    }

    /** Stat_mapRec_stat_day_To_QueryStat on a fresh result record. */
    method FromDays(days: seq<DayRow>, createList: bool, spanHour: int, c: Cfg) returns (res: QueryReturn)
      requires stat.View() == EMPTY && tempSum == 0 && list == map[]
      requires Whole(days) && DaysApart(days)
      modifies this, stat
      ensures var step := if spanHour * 2 <= 0 then 1 else spanHour * 2;
              var run := Run(VisitedFrom(days, 0, step, begin, end), c);
              && (res.ResLimit? <==> createList && run.stopped)
              && list == (if createList then Returned(days, step, begin, end, c) else map[])
              && (createList ==> ReturnsMarked(days, run, begin, end, list))
      ensures res.Success? ==> stat.View() == Merge(Rows(days))
    {
      var first := 0;
      var hasValid, prevValid, prev := false, true, NO_SAMPLE;
      var step := spanHour * 2;
      if step <= 0 {
        step := 1;
      }
      ghost var run := Run(VisitedFrom(days, 0, step, begin, end), c);
      RunDaysIsContinue(START, days, 0, step, begin, end, c);
      ghost var f := START;
      var d := 0;
      while d < |days|
        invariant 0 <= d <= |days|
        invariant stat.View() == MergeFold(Rows(days[..d])) && tempSum == WeightedSum(Rows(days[..d]))
        invariant first == FirstDay(days[..d])
        invariant !createList ==> list == map[] && !hasValid
        invariant At(f, hasValid, prevValid, prev) && !f.stopped
        invariant createList ==> HeadsDays(f, days, d, step, begin, end, c, run)
      {
        var day := days[d];
        RowsSnoc(days, d);
        FirstDayPrefix(days, d);
        if day.stat.valid {
          AddDay(day.stat);
          if first == 0 {
            first := day.dayBegin;
          }
          if createList {
            HeadsDaysOn(f, days, d, step, begin, end, c, run);
            var over;
            hasValid, prevValid, prev, over, f := TakeDay(day, step, c, hasValid, prevValid, prev, f);
            if over {
              ReturnedMarks(days, step, begin, end, c);
              return ResLimit;
            }
          }
        } else if createList {
          HeadsDaysOn(f, days, d, step, begin, end, c, run);
        }
        d := d + 1;
      }
      assert days[..|days|] == days;
      if createList {
        HeadsDaysEnd(f, days, step, begin, end, c, run);
      }
      if createList && hasValid {
        FixInvalidFullDay(days, first);
      }
      ReturnedMarks(days, step, begin, end, c);
      stat.CalcAvg(tempSum);
      return Success;
    }

    /** QueryStatFixInvalidFullDay. */
    method FixInvalidFullDay(days: seq<DayRow>, first: int)
      modifies this`list
      ensures list == WithGaps(old(list), GapTimes(days, first, end, DayCount(begin, end)))
      ensures first > begin - 86400 ==> MarksMissing(old(list), list, days, first, end)
    {
      var maxDay := DayCount(begin, end);
      var i := 1;
      ghost var was := list;
      assert WithGaps(list, {}) == list;
      while i < maxDay
        invariant 1 <= i && if maxDay <= 1 then i == 1 else i <= maxDay
        invariant MarkedUpTo(was, list, days, first, end, i)
      {
        var t := first + i * 24 * 60 * 60;
        MarkNext(was, list, days, first, end, i, t);
        if t < end && !DayPresent(days, t) {
          list := list[t := Sample(t, 0, 0)];
        }
        i := i + 1;
      }
      if first > begin - DAY {
        MarkingMarks(old(list), days, first, begin, end);
      }
    }
  }

  /** The filter run over the slots i, i + step, ... of one day. */
  ghost function RunDay(f: Filter, day: DayRow, i: nat, step: nat, begin: int, end: int, c: Cfg): Filter
    requires |day.v1k| == SLOTS && step > 0
    decreases SLOTS - i
  {
    if i >= SLOTS then f
    else RunDay(if begin <= SlotTime(day.dayBegin, i) <= end then Step(f, SlotOf(day, i), c) else f,
                day, i + step, step, begin, end, c)
  }

  /** The filter run over the valid days from position d on. */
  ghost function RunDays(f: Filter, days: seq<DayRow>, d: nat, step: nat, begin: int, end: int, c: Cfg): Filter
    requires Whole(days) && step > 0
    decreases |days| - d
  {
    if d >= |days| then f
    else RunDays(if days[d].stat.valid then RunDay(f, days[d], 0, step, begin, end, c) else f,
                 days, d + 1, step, begin, end, c)
  }

  /** From here the day leads to the filter state `goal`. */
  ghost predicate Heads(f: Filter, day: DayRow, i: nat, step: nat, begin: int, end: int, c: Cfg, goal: Filter)
    requires |day.v1k| == SLOTS && step > 0
  {
    RunDay(f, day, i, step, begin, end, c) == goal
  }

  lemma HeadsOn(f: Filter, day: DayRow, i: nat, step: nat, begin: int, end: int, c: Cfg, goal: Filter)
    requires |day.v1k| == SLOTS && step > 0 && i < SLOTS && Heads(f, day, i, step, begin, end, c, goal)
    ensures var g := Step(f, SlotOf(day, i), c);
            if begin <= SlotOf(day, i).time <= end
            then Heads(g, day, i + step, step, begin, end, c, goal) && (g.stopped ==> g == goal)
            else Heads(f, day, i + step, step, begin, end, c, goal)
  {
    var g := Step(f, SlotOf(day, i), c);
    if g.stopped {
      StoppedDay(g, day, i + step, step, begin, end, c);
    }
  }

  lemma HeadsEnd(f: Filter, day: DayRow, i: nat, step: nat, begin: int, end: int, c: Cfg, goal: Filter)
    requires |day.v1k| == SLOTS && step > 0 && i >= SLOTS && Heads(f, day, i, step, begin, end, c, goal)
    ensures f == goal
  {
  }

  lemma {:induction false} StoppedDay(f: Filter, day: DayRow, i: nat, step: nat, begin: int, end: int, c: Cfg)
    requires |day.v1k| == SLOTS && step > 0 && f.stopped
    ensures RunDay(f, day, i, step, begin, end, c) == f
    decreases SLOTS - i
  {
    if i < SLOTS {
      StoppedDay(f, day, i + step, step, begin, end, c);
    }
  }

  lemma {:induction false} StoppedDays(f: Filter, days: seq<DayRow>, d: nat, step: nat, begin: int, end: int, c: Cfg)
    requires Whole(days) && step > 0 && f.stopped
    ensures RunDays(f, days, d, step, begin, end, c) == f
    decreases |days| - d
  {
    if d < |days| {
      StoppedDay(f, days[d], 0, step, begin, end, c);
      StoppedDays(f, days, d + 1, step, begin, end, c);
    }
  }

  /** From here the days lead to the filter state `goal`. */
  ghost predicate HeadsDays(f: Filter, days: seq<DayRow>, d: nat, step: nat, begin: int, end: int, c: Cfg, goal: Filter)
    requires Whole(days) && step > 0
  {
    RunDays(f, days, d, step, begin, end, c) == goal
  }

  lemma HeadsDaysOn(f: Filter, days: seq<DayRow>, d: nat, step: nat, begin: int, end: int, c: Cfg, goal: Filter)
    requires Whole(days) && step > 0 && d < |days| && HeadsDays(f, days, d, step, begin, end, c, goal)
    ensures var g := RunDay(f, days[d], 0, step, begin, end, c);
            if days[d].stat.valid
            then HeadsDays(g, days, d + 1, step, begin, end, c, goal) && (g.stopped ==> g == goal)
            else HeadsDays(f, days, d + 1, step, begin, end, c, goal)
  {
    var g := RunDay(f, days[d], 0, step, begin, end, c);
    if g.stopped {
      StoppedDays(g, days, d + 1, step, begin, end, c);
    }
  }

  lemma HeadsDaysEnd(f: Filter, days: seq<DayRow>, step: nat, begin: int, end: int, c: Cfg, goal: Filter)
    requires Whole(days) && step > 0 && HeadsDays(f, days, |days|, step, begin, end, c, goal)
    ensures f == goal
  {
  }

  lemma {:induction false} RunDayIsContinue(f: Filter, day: DayRow, i: nat, step: nat, begin: int, end: int,
                                            later: seq<Slot>, c: Cfg)
    requires |day.v1k| == SLOTS && step > 0
    ensures Continue(f, SlotsFrom(day, i, step, begin, end) + later, c)
        == Continue(RunDay(f, day, i, step, begin, end, c), later, c)
    decreases SLOTS - i
  {
    var slots := SlotsFrom(day, i, step, begin, end) + later;
    if i >= SLOTS {
      assert slots == later;
    } else {
      var rest := SlotsFrom(day, i + step, step, begin, end) + later;
      if begin <= SlotTime(day.dayBegin, i) <= end {
        assert slots[0] == SlotOf(day, i) && slots[1..] == rest;
        RunDayIsContinue(Step(f, SlotOf(day, i), c), day, i + step, step, begin, end, later, c);
      } else {
        assert slots == rest;
        RunDayIsContinue(f, day, i + step, step, begin, end, later, c);
      }
    }
  }

  /** The nested loops are one run of the filter over the visited slots. */
  lemma {:induction false} RunDaysIsContinue(f: Filter, days: seq<DayRow>, d: nat, step: nat, begin: int, end: int,
                                             c: Cfg)
    requires Whole(days) && step > 0
    ensures Continue(f, VisitedFrom(days, d, step, begin, end), c) == RunDays(f, days, d, step, begin, end, c)
    decreases |days| - d
  {
    if d < |days| {
      if days[d].stat.valid {
        RunDayIsContinue(f, days[d], 0, step, begin, end, VisitedFrom(days, d + 1, step, begin, end), c);
        RunDaysIsContinue(RunDay(f, days[d], 0, step, begin, end, c), days, d + 1, step, begin, end, c);
      } else {
        RunDaysIsContinue(f, days, d + 1, step, begin, end, c);
      }
    }
  }

  /** The days in front of day n behind the first have been marked. */
  ghost predicate MarkedUpTo(was: map<int, Sample>, list: map<int, Sample>, days: seq<DayRow>, first: int, end: int,
                             n: int) {
    list == WithGaps(was, GapTimes(days, first, end, n))
  }

  lemma MarkNext(was: map<int, Sample>, list: map<int, Sample>, days: seq<DayRow>, first: int, end: int, n: nat, t: int)
    requires n >= 1 && MarkedUpTo(was, list, days, first, end, n) && t == first + n * 86400
    ensures MarkedUpTo(was, if t < end && !DayPresent(days, t) then list[t := Sample(t, 0, 0)] else list,
                       days, first, end, n + 1)
  {
    var gaps := GapTimes(days, first, end, n);
    assert WithGaps(was, gaps + {t}) == WithGaps(was, gaps)[t := Sample(t, 0, 0)];
    assert gaps + {} == gaps;
  }

  lemma RowsSnoc(days: seq<DayRow>, d: nat)
    requires d < |days|
    ensures MergeFold(Rows(days[..d + 1])) == MergeStep(MergeFold(Rows(days[..d])), days[d].stat)
    ensures WeightedSum(Rows(days[..d + 1])) ==
            WeightedSum(Rows(days[..d])) + if days[d].stat.valid then days[d].stat.avg * days[d].stat.num else 0
  {
    assert Rows(days[..d + 1]) == Rows(days[..d]) + [days[d].stat];
    Months.FoldRowsSnoc(Rows(days[..d]), days[d].stat);
  }

  /** The list that FromDays returns: without marked days when it ran into its limit, or when there
      is no valid slot at all. */
  function Returned(days: seq<DayRow>, step: nat, begin: int, end: int, c: Cfg): map<int, Sample>
    requires Whole(days) && step > 0
  {
    var run := Run(VisitedFrom(days, 0, step, begin, end), c);
    if run.stopped || !run.hasValid then run.list
    else WithGaps(run.list, GapTimes(days, FirstDay(days), end, DayCount(begin, end)))
  }

  /** The returned list is that of the filter, with every missing day behind the first valid one marked if
      the filter came to its end and found something valid. */
  ghost predicate ReturnsMarked(days: seq<DayRow>, run: Filter, begin: int, end: int, list: map<int, Sample>) {
    if run.stopped || !run.hasValid then list == run.list
    else
      forall d: nat :: FirstValid(days, d) && days[d].dayBegin > begin - 86400
        ==> MarksMissing(run.list, list, days, days[d].dayBegin, end)
  }

  lemma ReturnedMarks(days: seq<DayRow>, step: nat, begin: int, end: int, c: Cfg)
    requires Whole(days) && step > 0
    ensures ReturnsMarked(days, Run(VisitedFrom(days, 0, step, begin, end), c), begin, end,
                          Returned(days, step, begin, end, c))
  {
    var run := Run(VisitedFrom(days, 0, step, begin, end), c);
    forall d: nat | FirstValid(days, d) && days[d].dayBegin > begin - DAY
      ensures MarksMissing(run.list, WithGaps(run.list, GapTimes(days, FirstDay(days), end, DayCount(begin, end))),
                           days, days[d].dayBegin, end)
    {
      FirstDayIs(days, d);
      MarkingMarks(run.list, days, days[d].dayBegin, begin, end);
    }
  }

  /** The returned list shows every visited slot from the first valid one on, whatever the stored
      days contain: up to the slot at which a limited query stopped, and otherwise all of them,
      unless the query has a dead band and a day without a record lies between two visited slots. */
  lemma QueryListIsFaithful(days: seq<DayRow>, step: nat, begin: int, end: int, c: Cfg)
    requires Whole(days) && DaysApart(days) && step > 0
    ensures var slots := VisitedFrom(days, 0, step, begin, end);
            var run := Run(slots, c);
            && run.seen <= |slots| && (!run.stopped ==> run.seen == |slots|)
            && (run.hasValid <==> exists j :: 0 <= j < run.seen && slots[j].valid)
            && Sparse(run.list, c) && ReturnsMarked(days, run, begin, end, Returned(days, step, begin, end, c))
            && (run.stopped || c.spanrate <= 0
                || !Straddled(Times(slots), GapTimes(days, FirstDay(days), end, DayCount(begin, end)))
                ==> Faithful(Returned(days, step, begin, end, c), slots[..run.seen], c))
  {
    VisitedAscending(days, 0, step, begin, end);
    var slots, gaps := VisitedFrom(days, 0, step, begin, end),
        GapTimes(days, FirstDay(days), end, DayCount(begin, end));
    var run := Run(slots, c);
    FilterIsFaithful(slots, c);
    ReturnedMarks(days, step, begin, end, c);
    if !run.stopped && run.hasValid && (c.spanrate <= 0 || !Straddled(Times(slots), gaps)) {
      forall i | 0 <= i < |slots| ensures slots[i].time !in gaps {
        GapMissesSlot(days, step, begin, end, FirstDay(days), DayCount(begin, end), slots[i]);
      }
      GapsHarmless(slots, gaps, c);
      assert slots[..run.seen] == slots;
    }
  }
}
