/** The point list of a query (gsiot/src/DataStoreMgr.cpp 1940-2092): merging day records, the
    dead-band filter over their half-hour slots, and the marking of days without a record. */
module QueryList {
  import opened Stats
  import opened Lookup
  import opened DayRecord

  const FLAG_NORM := 2
  const DAY := 24 * 60 * 60

  /** A slot of a stored day: its time, whether it is valid, and its value. */
  datatype Slot = Slot(time: int, valid: bool, value: int)

  /** The filter's settings. `grade` maps a value to the grade it falls in; it is used when the
      query compares grades and the address type has any (byGrade). A limited query gives up
      once its list is longer than `max`. */
  datatype Cfg = Cfg(spanrate: int, byGrade: bool, grade: int -> int, removeInvalid: bool, limited: bool, max: nat)

  function Diff(c: Cfg, a: int, b: int): nat {
    var d := if c.byGrade then c.grade(a) - c.grade(b) else a - b;
    if d < 0 then -d else d
  }

  /** The variables of the loop, with the list built so far and the number of slots seen. */
  datatype Filter = Filter(hasValid: bool, prevValid: bool, prev: Sample, list: map<int, Sample>, stopped: bool,
      seen: nat)

  const START := Filter(false, true, NO_SAMPLE, map[], false, 0)

  function Point(s: Slot): Sample {
    Sample(s.time, if s.valid then FLAG_NORM else 0, s.value)
  }

  /** The slot is dropped because an invalid stretch is already on the list. */
  predicate RepeatsInvalid(f: Filter, s: Slot, c: Cfg) {
    c.removeInvalid && !f.prevValid && !s.valid
  }

  /** The slot is dropped because it hardly differs from the last point of the same validity. */
  predicate TooClose(f: Filter, s: Slot, c: Cfg) {
    c.spanrate != 0 && f.prev.time != 0 && f.prev.flag == Point(s).flag && Diff(c, s.value, f.prev.value) < c.spanrate
  }

  /** One slot, in the branches of the source. The grade comparison leaves through `continue`,
      which skips the update of prevValid. */
  function Step(f0: Filter, s: Slot, c: Cfg): Filter {
    if f0.stopped then f0
    else
      var f := f0.(seen := f0.seen + 1);
      if !s.valid && !f.hasValid then f
      else if RepeatsInvalid(f, s, c) then f.(hasValid := true, prevValid := s.valid)
      else if TooClose(f, s, c) then
        if c.byGrade then f.(hasValid := true) else f.(hasValid := true, prevValid := s.valid)
      else Emit(f, s, c)
  }

  /** The slot becomes the last point of the list, which may then be too long to go on. */
  function Emit(f: Filter, s: Slot, c: Cfg): Filter {
    var list := f.list[s.time := Point(s)];
    var over := c.limited && |list| > c.max;
    Filter(true, if over then f.prevValid else s.valid, Point(s), list, over, f.seen)
  }

  function Continue(f: Filter, slots: seq<Slot>, c: Cfg): Filter
    decreases |slots|
  {
    if slots == [] then f else Continue(Step(f, slots[0], c), slots[1..], c)
  }

  function Run(slots: seq<Slot>, c: Cfg): Filter {
    Continue(START, slots, c)
  }

  // ---------- what the list promises ----------

  ghost predicate Ascending(slots: seq<Slot>) {
    && (forall i :: 0 <= i < |slots| ==> slots[i].time > 0)
    && (forall i, j :: 0 <= i < j < |slots| ==> Sooner(slots, i, j))
  }

  ghost predicate Sooner(slots: seq<Slot>, i: int, j: int)
    requires 0 <= i < |slots| && 0 <= j < |slots|
  {
    slots[i].time < slots[j].time
  }

  /** k is the latest key at or before t. */
  ghost predicate Latest(list: map<int, Sample>, t: int, k: int) {
    k in list && k <= t && forall j :: j in list && j <= t ==> j <= k
  }

  /** A value within the dead band of another; the same value when there is no dead band. */
  ghost predicate Close(c: Cfg, a: int, b: int) {
    a == b || (if c.byGrade then -c.spanrate < c.grade(a) - c.grade(b) < c.spanrate
        else -c.spanrate < a - b < c.spanrate)
  }

  /** The two values, or their grades, lie at least a dead band apart, one way or the other. */
  ghost predicate FarApart(c: Cfg, a: int, b: int) {
    if c.byGrade then c.grade(a) - c.grade(b) >= c.spanrate || c.grade(b) - c.grade(a) >= c.spanrate
    else a - b >= c.spanrate || b - a >= c.spanrate
  }

  ghost predicate ShownBy(list: map<int, Sample>, s: Slot, c: Cfg, k: int) {
    && Latest(list, s.time, k)
    && list[k].Valid() == s.valid
    && (s.valid ==> Close(c, list[k].value, s.value))
  }

  /** The latest point at or before the slot has its validity and, if valid, a close value. */
  ghost predicate Shown(list: map<int, Sample>, s: Slot, c: Cfg) {
    exists k :: ShownBy(list, s, c, k)
  }

  ghost predicate ValidBy(slots: seq<Slot>, i: int) {
    exists j :: 0 <= j <= i && j < |slots| && slots[j].valid
  }

  /** From the first valid slot on, the list shows every slot. */
  ghost predicate Faithful(list: map<int, Sample>, slots: seq<Slot>, c: Cfg) {
    forall i {:trigger ValidBy(slots, i)} :: 0 <= i < |slots| && ValidBy(slots, i) ==> Shown(list, slots[i], c)
  }

  ghost predicate Adjacent(list: map<int, Sample>, j: int, k: int) {
    j in list && k in list && j < k && forall m :: m in list ==> m <= j || m >= k
  }

  /** Neighbouring points tell different things. */
  ghost predicate Sparse(list: map<int, Sample>, c: Cfg) {
    forall j, k :: Adjacent(list, j, k) ==> TellsMore(list[j], list[k], c)
  }

  ghost predicate TellsMore(p: Sample, q: Sample, c: Cfg) {
    && (c.spanrate != 0 ==> p.Valid() != q.Valid() || FarApart(c, p.value, q.value))
    && (c.removeInvalid ==> p.Valid() || q.Valid())
  }

  /** Without a dead band every valid slot is on the list itself. */
  ghost predicate KeepsValid(list: map<int, Sample>, slots: seq<Slot>) {
    forall i :: 0 <= i < |slots| ==> KeptAt(list, slots, i)
  }

  ghost predicate KeptAt(list: map<int, Sample>, slots: seq<Slot>, i: int)
    requires 0 <= i < |slots|
  {
    slots[i].valid ==> slots[i].time in list && list[slots[i].time] == Sample(slots[i].time, 2, slots[i].value)
  }

  ghost predicate FromSlots(list: map<int, Sample>, slots: seq<Slot>) {
    forall k :: k in list ==> ComesFrom(k, list[k], slots)
  }

  ghost predicate ComesFrom(k: int, p: Sample, slots: seq<Slot>) {
    exists i :: 0 <= i < |slots| && PointOf(k, p, slots[i])
  }

  ghost predicate PointOf(k: int, p: Sample, s: Slot) {
    k == s.time && p == Sample(k, if s.valid then 2 else 0, s.value)
  }

  /** What holds after every step that did not stop: prevValid is the validity of the last point. */
  ghost predicate LastPoint(f: Filter) {
    && (f.hasValid <==> f.prev.time != 0)
    && (f.prev.time == 0 ==> f.list == map[] && f.prevValid)
    && (f.prev.time != 0 ==>
          && f.prev.time in f.list && f.list[f.prev.time] == f.prev
          && (f.prev.flag == 0 || f.prev.flag == FLAG_NORM)
          && (!f.stopped ==> f.prevValid == f.prev.Valid())
          && forall k :: k in f.list ==> k <= f.prev.time)
  }

  ghost predicate Inv(f: Filter, done: seq<Slot>, c: Cfg) {
    && LastPoint(f)
    && (f.hasValid <==> ValidBy(done, |done| - 1))
    && (done != [] ==> f.prev.time <= done[|done| - 1].time)
    && (done == [] ==> f.prev.time == 0)
    && FromSlots(f.list, done)
    && Faithful(f.list, done, c)
    && Sparse(f.list, c)
    && (c.spanrate <= 0 ==> KeepsValid(f.list, done))
  }

  // ---------- one step keeps the promise ----------

  lemma ValidBySnoc(done: seq<Slot>, s: Slot, i: int)
    ensures 0 <= i < |done| ==> (ValidBy(done + [s], i) <==> ValidBy(done, i))
    ensures ValidBy(done + [s], |done|) <==> ValidBy(done, |done| - 1) || s.valid
  {
    var all := done + [s];
    assert all[|done|] == s;
    assert forall j :: 0 <= j < |done| ==> all[j] == done[j];
  }

  lemma AscendingSnoc(done: seq<Slot>, s: Slot)
    requires Ascending(done + [s])
    ensures Ascending(done) && s.time > 0
    ensures forall i :: 0 <= i < |done| ==> done[i].time < s.time
  {
    var all := done + [s];
    assert all[|done|] == s;
    forall i | 0 <= i < |done| ensures done[i].time < s.time && done[i].time > 0 {
      assert all[i] == done[i] && Sooner(all, i, |done|);
    }
    forall i, j | 0 <= i < j < |done| ensures Sooner(done, i, j) {
      assert Sooner(all, i, j);
    }
  }

  /** An emitted slot becomes the latest key; what was shown before stays shown. */
  lemma EmitKeepsShown(list: map<int, Sample>, s: Slot, t: Slot, c: Cfg)
    requires Shown(list, t, c) && t.time < s.time
    ensures Shown(list[s.time := Point(s)], t, c)
  {
    var k :| ShownBy(list, t, c, k);
    assert ShownBy(list[s.time := Point(s)], t, c, k);
  }

  lemma EmitShows(list: map<int, Sample>, s: Slot, c: Cfg)
    ensures Shown(list[s.time := Point(s)], s, c)
  {
    assert ShownBy(list[s.time := Point(s)], s, c, s.time);
  }

  lemma EmitSparse(f: Filter, s: Slot, c: Cfg)
    requires LastPoint(f) && Sparse(f.list, c) && !f.stopped
    requires f.prev.time < s.time
    requires !RepeatsInvalid(f, s, c) && !TooClose(f, s, c)
    ensures Sparse(f.list[s.time := Point(s)], c)
  {
    var list := f.list[s.time := Point(s)];
    forall j, k | Adjacent(list, j, k) ensures TellsMore(list[j], list[k], c) {
      assert s.time !in f.list;
      if k == s.time {
        assert f.prev.time in list;
        assert j == f.prev.time;
      } else {
        assert j in f.list && k in f.list && j != s.time;
        forall m | m in f.list ensures m <= j || m >= k {
          assert m in list;
        }
        assert Adjacent(f.list, j, k);
      }
    }
  }

  /** A slot that is dropped is shown by the last point. */
  lemma DroppedIsShown(f: Filter, s: Slot, c: Cfg)
    requires LastPoint(f) && f.hasValid && !f.stopped && f.prev.time < s.time
    requires RepeatsInvalid(f, s, c) || TooClose(f, s, c)
    ensures Shown(f.list, s, c) && f.prev.Valid() == s.valid
  {
    assert ShownBy(f.list, s, c, f.prev.time);
  }

  lemma StepInv(f: Filter, done: seq<Slot>, s: Slot, c: Cfg)
    requires Inv(f, done, c) && !f.stopped && Ascending(done + [s])
    ensures Inv(Step(f, s, c), done + [s], c)
  {
    var g, all := Step(f, s, c), done + [s];
    AscendingSnoc(done, s);
    assert all[|done|] == s;
    assert g.hasValid <==> ValidBy(all, |all| - 1) by {
      ValidBySnoc(done, s, 0);
    }
    StepLastPoint(f, s, c);
    StepFaithful(f, done, s, c);
    assert Sparse(g.list, c) by {
      if g.list != f.list {
        EmitSparse(f, s, c);
      }
    }
    StepFromSlots(f, done, s, c);
    if c.spanrate <= 0 {
      StepKeepsValid(f, done, s, c);
    }
  }

  lemma StepLastPoint(f: Filter, s: Slot, c: Cfg)
    requires LastPoint(f) && !f.stopped && f.prev.time < s.time && s.time > 0
    ensures LastPoint(Step(f, s, c)) && Step(f, s, c).prev.time <= s.time
  {
  }

  lemma StepFaithful(f: Filter, done: seq<Slot>, s: Slot, c: Cfg)
    requires Inv(f, done, c) && !f.stopped && s.time > 0
    requires forall j :: 0 <= j < |done| ==> done[j].time < s.time
    ensures Faithful(Step(f, s, c).list, done + [s], c)
  {
    var all := done + [s];
    forall i | 0 <= i < |all| && ValidBy(all, i) ensures Shown(Step(f, s, c).list, all[i], c) {
      ValidBySnoc(done, s, i);
      StepShows(f, done, s, c, i);
    }
  }

  lemma StepKeepsValid(f: Filter, done: seq<Slot>, s: Slot, c: Cfg)
    requires c.spanrate <= 0 && KeepsValid(f.list, done) && !f.stopped
    requires forall j :: 0 <= j < |done| ==> done[j].time < s.time
    ensures KeepsValid(Step(f, s, c).list, done + [s])
  {
    var all := done + [s];
    forall i | 0 <= i < |all| ensures KeptAt(Step(f, s, c).list, all, i) {
      if i < |done| {
        assert KeptAt(f.list, done, i) && all[i] == done[i];
      }
    }
  }

  lemma StepShows(f: Filter, done: seq<Slot>, s: Slot, c: Cfg, i: nat)
    requires Inv(f, done, c) && !f.stopped && s.time > 0
    requires forall j :: 0 <= j < |done| ==> done[j].time < s.time
    requires if i < |done| then ValidBy(done, i) else i == |done| && (ValidBy(done, |done| - 1) || s.valid)
    ensures Shown(Step(f, s, c).list, (done + [s])[i], c)
  {
    var emits := (s.valid || f.hasValid) && !RepeatsInvalid(f, s, c) && !TooClose(f, s, c);
    assert f.prev.time < s.time;
    if i < |done| {
      assert Shown(f.list, done[i], c);
      if emits {
        EmitKeepsShown(f.list, s, done[i], c);
      }
    } else if emits {
      EmitShows(f.list, s, c);
    } else {
      DroppedIsShown(f, s, c);
    }
  }

  lemma StepFromSlots(f: Filter, done: seq<Slot>, s: Slot, c: Cfg)
    requires FromSlots(f.list, done)
    ensures FromSlots(Step(f, s, c).list, done + [s])
  {
    var g, all := Step(f, s, c), done + [s];
    assert all[|done|] == s;
    forall k | k in g.list ensures ComesFrom(k, g.list[k], all) {
      if k in f.list && g.list[k] == f.list[k] {
        assert ComesFrom(k, f.list[k], done);
        var i :| 0 <= i < |done| && PointOf(k, f.list[k], done[i]);
        assert PointOf(k, g.list[k], all[i]);
      } else {
        assert PointOf(k, g.list[k], all[|done|]);
      }
    }
  }

  lemma NextSlot(all: seq<Slot>, n: nat)
    requires n < |all|
    ensures all[..n] + [all[n]] == all[..n + 1]
    ensures all[n..] != [] && all[n..][0] == all[n] && all[n..][1..] == all[n + 1..]
  {
  }

  lemma StepInvAt(f: Filter, all: seq<Slot>, n: nat, c: Cfg)
    requires n < |all| && Ascending(all) && Inv(f, all[..n], c) && !f.stopped
    ensures Inv(Step(f, all[n], c), all[..n + 1], c)
  {
    NextSlot(all, n);
    AscendingPrefix(all, n + 1);
    StepInv(f, all[..n], all[n], c);
  }

  lemma ContinueAt(f: Filter, all: seq<Slot>, n: nat, c: Cfg)
    requires n < |all|
    ensures Continue(f, all[n..], c) == Continue(Step(f, all[n], c), all[n + 1..], c)
  {
    NextSlot(all, n);
  }

  /** Running on from slot n of a slot list. */
  lemma {:induction false} ContinueInv(f: Filter, all: seq<Slot>, n: nat, c: Cfg) returns (g: Filter)
    requires n <= |all| && Ascending(all)
    requires Inv(f, all[..n], c) && f.seen == n && !f.stopped
    ensures g == Continue(f, all[n..], c)
    ensures n <= g.seen <= |all| && Inv(g, all[..g.seen], c)
    ensures if g.stopped then c.limited else g.seen == |all|
    decreases |all| - n
  {
    if n == |all| {
      g := f;
      assert all[n..] == [];
    } else {
      var s, f' := all[n], Step(f, all[n], c);
      StepInvAt(f, all, n, c);
      ContinueAt(f, all, n, c);
      if f'.stopped {
        StoppedStays(f', all[n + 1..], c);
        g := f';
      } else {
        g := ContinueInv(f', all, n + 1, c);
      }
    }
  }

  lemma AscendingPrefix(all: seq<Slot>, n: nat)
    requires Ascending(all) && n <= |all|
    ensures Ascending(all[..n])
  {
    var a := all[..n];
    forall i, j | 0 <= i < j < |a| ensures Sooner(a, i, j) {
      assert Sooner(all, i, j);
    }
  }

  lemma {:induction false} StoppedStays(f: Filter, slots: seq<Slot>, c: Cfg)
    requires f.stopped || slots == []
    ensures Continue(f, slots, c) == f
    decreases |slots|
  {
    if slots != [] {
      StoppedStays(f, slots[1..], c);
    }
  }

  /** The filter is a faithful compression of the slots it looked at: all of them, or, for a
      query that ran into its limit, those up to the one that exceeded it. */
  lemma FilterIsFaithful(slots: seq<Slot>, c: Cfg)
    requires Ascending(slots)
    ensures var g := Run(slots, c);
            && g.seen <= |slots| && (!g.stopped ==> g.seen == |slots|)
            && Faithful(g.list, slots[..g.seen], c)
            && Sparse(g.list, c)
            && FromSlots(g.list, slots[..g.seen])
            && LastPoint(g) && (g.hasValid <==> exists j :: 0 <= j < g.seen && slots[j].valid)
            && (g.stopped ==> c.limited && |g.list| == c.max + 1)
            && (!g.stopped && c.limited ==> |g.list| <= c.max)
  {
    RunInv(slots, c);
    var g := Run(slots, c);
    if g.hasValid {
      var j :| 0 <= j < g.seen && slots[..g.seen][j].valid;
      assert slots[j].valid;
    }
    forall j | 0 <= j < g.seen && slots[j].valid ensures g.hasValid {
      assert slots[..g.seen][j].valid;
    }
    LimitKept(START, slots, c);
  }

  /** A list that may hold `max` points: the run stops with the first one too many. */
  ghost predicate WithinLimit(f: Filter, c: Cfg) {
    if f.stopped then c.limited && |f.list| == c.max + 1 else c.limited ==> |f.list| <= c.max
  }

  lemma {:induction false} LimitKept(f: Filter, slots: seq<Slot>, c: Cfg)
    requires WithinLimit(f, c)
    ensures WithinLimit(Continue(f, slots, c), c)
    decreases |slots|
  {
    if slots != [] {
      if !f.stopped {
        MapGrows(f.list, slots[0].time, Point(slots[0]));
      }
      LimitKept(Step(f, slots[0], c), slots[1..], c);
    }
  }

  lemma MapGrows(list: map<int, Sample>, t: int, p: Sample)
    ensures |list| <= |list[t := p]| <= |list| + 1
  {
    assert list[t := p].Keys == list.Keys + {t};
    assert |list.Keys| <= |list.Keys + {t}| <= |list.Keys| + 1 by {
      assert t in list.Keys ==> list.Keys + {t} == list.Keys;
    }
  }

  lemma RunInv(slots: seq<Slot>, c: Cfg)
    requires Ascending(slots)
    ensures var g := Run(slots, c);
            && g.seen <= |slots| && Inv(g, slots[..g.seen], c)
            && (g.stopped ==> c.limited)
            && (!g.stopped ==> g.seen == |slots|)
  {
    assert slots[0..] == slots && slots[..0] == [];
    var g := ContinueInv(START, slots, 0, c);
  }

  // ---------- marking days without a record ----------

  /** The list after an invalid point has been put at every time in `gaps`. */
  function WithGaps(list: map<int, Sample>, gaps: set<int>): map<int, Sample> {
    list + map t | t in gaps :: Sample(t, 0, 0)
  }

  function Times(slots: seq<Slot>): seq<int> {
    seq(|slots|, i requires 0 <= i < |slots| => slots[i].time)
  }

  /** A marked day lies strictly between two visited slots. */
  ghost predicate Straddled(times: seq<int>, gaps: set<int>) {
    exists i, g, j :: 0 <= i < |times| && 0 <= j < |times| && g in gaps && times[i] < g < times[j]
  }

  /** The list that is returned for these slots, after the marking, shows every slot. */
  ghost predicate FaithfulWithGaps(slots: seq<Slot>, gaps: set<int>, c: Cfg) {
    Faithful(WithGaps(Run(slots, c).list, gaps), slots, c)
  }

  /** Unless the query runs into its limit, in which case no days are marked. */
  ghost predicate GoodContent(slots: seq<Slot>, times: seq<int>, gaps: set<int>, c: Cfg) {
    Times(slots) == times && !Run(slots, c).stopped ==> FaithfulWithGaps(slots, gaps, c)
  }

  ghost predicate AscendingTimes(times: seq<int>) {
    && (forall i :: 0 <= i < |times| ==> times[i] > 0)
    && (forall i, j :: 0 <= i < j < |times| ==> SoonerTime(times, i, j))
  }

  ghost predicate SoonerTime(times: seq<int>, i: int, j: int)
    requires 0 <= i < |times| && 0 <= j < |times|
  {
    times[i] < times[j]
  }

  lemma AscendingFromTimes(slots: seq<Slot>)
    requires AscendingTimes(Times(slots))
    ensures Ascending(slots)
  {
    forall i | 0 <= i < |slots| ensures slots[i].time > 0 {
      assert Times(slots)[i] == slots[i].time;
    }
    forall i, j | 0 <= i < j < |slots| ensures Sooner(slots, i, j) {
      assert SoonerTime(Times(slots), i, j);
    }
  }

  /** The latest of the marked times at or before t, when there is one after k. */
  lemma LatestGap(gaps: set<int>, k: int, t: int) returns (g: int)
    requires exists x :: x in gaps && k < x <= t
    ensures g in gaps && k < g <= t && forall x :: x in gaps && x <= t ==> x <= g
    decreases t - k
  {
    if x :| x in gaps && k < x <= t && exists y :: y in gaps && x < y <= t {
      g := LatestGap(gaps, x, t);
    } else {
      g :| g in gaps && k < g <= t;
    }
  }

  /** A slot stays shown when no marked day lies between it and the point that shows it, or when
      it is invalid itself. */
  lemma ShownWithGaps(list: map<int, Sample>, gaps: set<int>, s: Slot, c: Cfg, k: int)
    requires ShownBy(list, s, c, k) && s.time !in gaps && k !in gaps
    requires !s.valid || forall g :: g in gaps ==> !(k < g < s.time)
    ensures Shown(WithGaps(list, gaps), s, c)
  {
    var all := WithGaps(list, gaps);
    if exists x :: x in gaps && k < x <= s.time {
      var g := LatestGap(gaps, k, s.time);
      assert ShownBy(all, s, c, g);
    } else {
      assert ShownBy(all, s, c, k);
    }
  }

  lemma GapsHarmlessAt(list: map<int, Sample>, slots: seq<Slot>, gaps: set<int>, c: Cfg, i: nat)
    requires i < |slots| && FromSlots(list, slots) && Shown(list, slots[i], c)
    requires forall m :: 0 <= m < |slots| ==> slots[m].time !in gaps
    requires if c.spanrate <= 0 then KeptAt(list, slots, i) else !Straddled(Times(slots), gaps)
    ensures Shown(WithGaps(list, gaps), slots[i], c)
  {
    var k :| ShownBy(list, slots[i], c, k);
    assert ComesFrom(k, list[k], slots);
    var m :| 0 <= m < |slots| && PointOf(k, list[k], slots[m]);
    assert Times(slots)[m] == k && Times(slots)[i] == slots[i].time;
    ShownWithGaps(list, gaps, slots[i], c, k);
  }

  lemma GapsHarmless(slots: seq<Slot>, gaps: set<int>, c: Cfg)
    requires Ascending(slots) && !Run(slots, c).stopped
    requires forall i :: 0 <= i < |slots| ==> slots[i].time !in gaps
    requires c.spanrate <= 0 || !Straddled(Times(slots), gaps)
    ensures FaithfulWithGaps(slots, gaps, c)
  {
    var list := Run(slots, c).list;
    RunInv(slots, c);
    assert slots[..|slots|] == slots;
    forall i | 0 <= i < |slots| && ValidBy(slots, i) ensures Shown(WithGaps(list, gaps), slots[i], c) {
      assert c.spanrate <= 0 ==> KeptAt(list, slots, i);
      GapsHarmlessAt(list, slots, gaps, c, i);
    }
  }

  /** Every slot valid with value 0. */
  function Flatline(times: seq<int>): seq<Slot> {
    seq(|times|, i requires 0 <= i < |times| => Slot(times[i], true, 0))
  }

  /** Of equal valid slots only the first gets on the list. */
  lemma {:induction false} FlatlineRun(f: Filter, times: seq<int>, c: Cfg)
    requires c.spanrate > 0 && !f.stopped && f.hasValid
    requires f.prev.time != 0 && f.prev.flag == FLAG_NORM && f.prev.value == 0
    ensures Continue(f, Flatline(times), c).list == f.list && !Continue(f, Flatline(times), c).stopped
    decreases |times|
  {
    if times != [] {
      assert Flatline(times)[1..] == Flatline(times[1..]);
      FlatlineRun(Step(f, Flatline(times)[0], c), times[1..], c);
    }
  }

  lemma GapsHide(times: seq<int>, gaps: set<int>, c: Cfg)
    requires AscendingTimes(times) && (c.limited ==> c.max > 0) && c.spanrate > 0 && Straddled(times, gaps)
    ensures Times(Flatline(times)) == times && !Run(Flatline(times), c).stopped
        && !FaithfulWithGaps(Flatline(times), gaps, c)
  {
    var slots := Flatline(times);
    var i, g, j :| 0 <= i < |times| && 0 <= j < |times| && g in gaps && times[i] < g < times[j];
    var first := slots[0];
    assert slots[1..] == Flatline(times[1..]);
    FlatlineRun(Step(START, first, c), times[1..], c);
    var list := Run(slots, c).list;
    assert list == map[first.time := Point(first)];
    assert i > 0 ==> SoonerTime(times, 0, i);
    assert slots[j].valid;
    assert ValidBy(slots, j);
    GapIsLatest(list, gaps, first.time, g, slots[j], c);
    assert !Shown(WithGaps(list, gaps), slots[j], c);
  }

  /** A marked day behind the only valid point of a list hides a later valid slot. */
  lemma GapIsLatest(list: map<int, Sample>, gaps: set<int>, t: int, g: int, s: Slot, c: Cfg)
    requires forall k :: k in list ==> k <= t
    requires g in gaps && t < g < s.time && s.valid
    ensures forall k :: !ShownBy(WithGaps(list, gaps), s, c, k)
  {
    forall k ensures !ShownBy(WithGaps(list, gaps), s, c, k) {
      if Latest(WithGaps(list, gaps), s.time, k) {
        assert g in WithGaps(list, gaps);
        assert k >= g > t;
      }
    }
  }

  /** Where the list may not have a point, a run that does not stop has seen no valid slot. */
  lemma {:induction false} NoPointAllowed(slots: seq<Slot>, c: Cfg)
    requires Ascending(slots) && c.limited && c.max == 0 && !Run(slots, c).stopped
    ensures forall i :: 0 <= i < |slots| ==> !ValidBy(slots, i)
  {
    FirstValidStops(START, slots, c);
  }

  lemma {:induction false} FirstValidStops(f: Filter, slots: seq<Slot>, c: Cfg)
    requires !f.stopped && c.limited && c.max == 0 && f.prevValid && !f.hasValid && f.prev.time == 0
        && !Continue(f, slots, c).stopped
    ensures forall j :: 0 <= j < |slots| ==> !slots[j].valid
    decreases |slots|
  {
    if slots != [] {
      var g := Step(f, slots[0], c);
      if slots[0].valid {
        assert slots[0].time in g.list;
        StoppedStays(g, slots[1..], c);
      } else {
        FirstValidStops(g, slots[1..], c);
      }
    }
  }

  /** Marking days without a record keeps the list faithful, whatever the slots contain, if and
      only if there is no dead band, or no marked day lies between two visited slots, or the list
      may not have a single point. With a dead band, an unchanged value after such a day is not put
      on the list again and reads as invalid. */
  lemma GapsFaithfulExactly(times: seq<int>, gaps: set<int>, c: Cfg)
    requires AscendingTimes(times)
    requires forall i :: 0 <= i < |times| ==> times[i] !in gaps
    ensures (forall slots: seq<Slot> :: GoodContent(slots, times, gaps, c)) 
       <==> (c.spanrate <= 0 || !Straddled(times, gaps) || (c.limited && c.max == 0))
  {
    if c.spanrate <= 0 || !Straddled(times, gaps) {
      forall slots: seq<Slot> ensures GoodContent(slots, times, gaps, c) {
        if Times(slots) == times {
          AscendingFromTimes(slots);
          forall i | 0 <= i < |slots| ensures slots[i].time !in gaps {
            assert times[i] == slots[i].time;
          }
          if !Run(slots, c).stopped {
            GapsHarmless(slots, gaps, c);
          }
        }
      }
    } else if c.limited && c.max == 0 {
      forall slots: seq<Slot> ensures GoodContent(slots, times, gaps, c) {
        if Times(slots) == times && !Run(slots, c).stopped {
          AscendingFromTimes(slots);
          NoPointAllowed(slots, c);
        }
      }
    } else {
      GapsHide(times, gaps, c);
      assert !GoodContent(Flatline(times), times, gaps, c);
    }
  }
}
