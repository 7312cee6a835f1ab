/** What marking days without a record (gsiot/src/DataStoreMgr.cpp 2071-2092) does to a point list
    that was asked to hold no two invalid points side by side (remove_invalid, 2005-2011). */
module QueryMarks {
  import opened Stats
  import opened QueryList

  ghost predicate NoDoubleInvalid(list: map<int, Sample>) {
    forall j, k :: Adjacent(list, j, k) ==> list[j].Valid() || list[k].Valid()
  }

  /** The list that is returned for these slots, after the marking, if there is any. */
  ghost predicate GoodMarks(slots: seq<Slot>, times: seq<int>, gaps: set<int>, c: Cfg) {
    var run := Run(slots, c);
    Times(slots) == times && !run.stopped && run.hasValid ==> NoDoubleInvalid(WithGaps(run.list, gaps))
  }

  /** No two marked days lie on the same side of all slots, and none lies behind a slot unless that
      is the only one. */
  ghost predicate MarksApart(times: seq<int>, gaps: set<int>) {
    times != [] ==>
      && (forall g, h :: g in gaps && h in gaps && g < times[0] && h < times[0] ==> g == h)
      && (forall g, h :: g in gaps && h in gaps && g > times[0] && h > times[0] ==> g == h && |times| == 1)
  }

  // ---------- a list that starts with a valid point ----------

  /** The earliest point of the list is valid. */
  ghost predicate StartsValid(list: map<int, Sample>) {
    forall k :: Earliest(list, k) ==> list[k].Valid()
  }

  ghost predicate Earliest(list: map<int, Sample>, k: int) {
    k in list && forall j :: j in list ==> k <= j
  }

  lemma StepStartsValid(f: Filter, s: Slot, c: Cfg)
    requires LastPoint(f) && !f.stopped && StartsValid(f.list) && s.time > f.prev.time
    ensures StartsValid(Step(f, s, c).list)
  {
    var g := Step(f, s, c);
    if g.list != f.list {
      forall k | Earliest(g.list, k) ensures g.list[k].Valid() {
        if f.prev.time != 0 {
          assert forall j :: j in f.list ==> j in g.list;
          assert f.prev.time in g.list;
          assert k in f.list && g.list[k] == f.list[k];
          assert Earliest(f.list, k);
        }
      }
    }
  }

  /** Running on from slot n. */
  lemma {:induction false} ContinueStartsValid(f: Filter, all: seq<Slot>, n: nat, c: Cfg)
    requires n <= |all| && Ascending(all) && Inv(f, all[..n], c) && !f.stopped && StartsValid(f.list)
    ensures StartsValid(Continue(f, all[n..], c).list)
    decreases |all| - n
  {
    if n == |all| {
      assert all[n..] == [];
    } else {
      var g := Step(f, all[n], c);
      ContinueAt(f, all, n, c);
      StepInvAt(f, all, n, c);
      LastIsEarlier(f, all, n, c);
      StepStartsValid(f, all[n], c);
      if g.stopped {
        StoppedStays(g, all[n + 1..], c);
      } else {
        ContinueStartsValid(g, all, n + 1, c);
      }
    }
  }

  lemma LastIsEarlier(f: Filter, all: seq<Slot>, n: nat, c: Cfg)
    requires n < |all| && Ascending(all) && Inv(f, all[..n], c)
    ensures f.prev.time < all[n].time
  {
    if n > 0 {
      assert all[..n][n - 1] == all[n - 1] && Sooner(all, n - 1, n);
    }
  }

  lemma RunStartsValid(slots: seq<Slot>, c: Cfg)
    requires Ascending(slots)
    ensures StartsValid(Run(slots, c).list)
  {
    assert slots[0..] == slots && slots[..0] == [];
    ContinueStartsValid(START, slots, 0, c);
  }

  // ---------- marks that do no harm ----------

  /** Neighbours among listed points are neighbours of the list itself. */
  lemma MarkedNeighbours(list: map<int, Sample>, gaps: set<int>, j: int, k: int)
    requires Adjacent(WithGaps(list, gaps), j, k) && j !in gaps && k !in gaps
    ensures Adjacent(list, j, k) && WithGaps(list, gaps)[j] == list[j] && WithGaps(list, gaps)[k] == list[k]
  {
    forall m | m in list ensures m <= j || m >= k {
      assert m in WithGaps(list, gaps);
    }
  }

  /** The list is not empty, its points are slots, none of them marked, and no slot is earlier than
      the first. */
  ghost predicate ListOf(list: map<int, Sample>, times: seq<int>, gaps: set<int>) {
    && times != [] && (exists k :: k in list) && times[0] !in gaps
    && (forall k :: k in list ==> k in times && k !in gaps)
    && (forall t :: t in times ==> t >= times[0])
  }

  lemma HarmlessMarks(list: map<int, Sample>, times: seq<int>, gaps: set<int>)
    requires ListOf(list, times, gaps) && MarksApart(times, gaps) && NoDoubleInvalid(list) && StartsValid(list)
    ensures NoDoubleInvalid(WithGaps(list, gaps))
  {
    var marked := WithGaps(list, gaps);
    forall j, k | Adjacent(marked, j, k) ensures marked[j].Valid() || marked[k].Valid() {
      if j in gaps {
        BehindMark(list, times, gaps, j, k);
      } else if k in gaps {
        InFrontOfMark(list, times, gaps, j, k);
      } else {
        MarkedNeighbours(list, gaps, j, k);
      }
    }
  }

  lemma MarkIsInFront(list: map<int, Sample>, times: seq<int>, gaps: set<int>, j: int, k: int, p: int)
    requires ListOf(list, times, gaps) && MarksApart(times, gaps) && p in list
    requires j in gaps && j < k && (k in list || k in gaps) && (p <= j || p >= k)
    ensures j < times[0] <= p && k !in gaps
  {
    assert j > times[0] ==> |times| == 1;
    assert |times| == 1 && k in list ==> k == times[0];
  }

  lemma BehindMark(list: map<int, Sample>, times: seq<int>, gaps: set<int>, j: int, k: int)
    requires ListOf(list, times, gaps) && MarksApart(times, gaps) && StartsValid(list)
    requires Adjacent(WithGaps(list, gaps), j, k) && j in gaps
    ensures k !in gaps && k in list && list[k].Valid()
  {
    var p :| p in list;
    assert p in WithGaps(list, gaps);
    MarkIsInFront(list, times, gaps, j, k, p);
    forall m | m in list ensures k <= m {
      assert m in WithGaps(list, gaps);
    }
    assert Earliest(list, k);
  }

  lemma InFrontOfMark(list: map<int, Sample>, times: seq<int>, gaps: set<int>, j: int, k: int)
    requires ListOf(list, times, gaps) && MarksApart(times, gaps) && StartsValid(list)
    requires Adjacent(WithGaps(list, gaps), j, k) && j !in gaps && k in gaps
    ensures j in list && list[j].Valid()
  {
    assert j in times && k > times[0];
    assert |times| == 1;
    assert Earliest(list, j);
  }

  // ---------- marks that harm ----------

  /** A valid slot, and only invalid ones behind it. */
  function OneValid(times: seq<int>): seq<Slot> {
    seq(|times|, i requires 0 <= i < |times| => Slot(times[i], i == 0, 0))
  }

  /** Once an invalid point is on the list, further invalid slots leave it as it is. */
  lemma {:induction false} InvalidRun(f: Filter, slots: seq<Slot>, c: Cfg)
    requires c.removeInvalid && !f.stopped && f.hasValid && !f.prevValid
    requires forall i :: 0 <= i < |slots| ==> !slots[i].valid
    ensures Continue(f, slots, c).list == f.list && !Continue(f, slots, c).stopped && Continue(f, slots, c).hasValid
    decreases |slots|
  {
    if slots != [] {
      InvalidRun(Step(f, slots[0], c), slots[1..], c);
    }
  }

  /** So a list is made of the valid slot and the first of the others. */
  lemma OneValidRun(times: seq<int>, c: Cfg)
    requires times != [] && AscendingTimes(times) && c.removeInvalid && (c.limited ==> c.max >= 2)
    ensures var slots, run := OneValid(times), Run(OneValid(times), c);
            && Times(slots) == times && !run.stopped && run.hasValid
            && run.list == if |times| == 1 then map[times[0] := Sample(times[0], FLAG_NORM, 0)]
                           else map[times[0] := Sample(times[0], FLAG_NORM, 0), times[1] := Sample(times[1], 0, 0)]
  {
    var slots := OneValid(times);
    var f := Step(START, slots[0], c);
    assert f.list == map[times[0] := Sample(times[0], FLAG_NORM, 0)];
    assert |f.list| == 1;
    assert Run(slots, c) == Continue(f, slots[1..], c);
    if |times| == 1 {
      assert slots[1..] == [];
    } else {
      assert SoonerTime(times, 0, 1);
      var g := Step(f, slots[1], c);
      assert g.list == map[times[0] := Sample(times[0], FLAG_NORM, 0), times[1] := Sample(times[1], 0, 0)];
      assert |g.list| == 2;
      assert slots[1..][0] == slots[1] && slots[1..][1..] == slots[2..];
      assert Run(slots, c) == Continue(g, slots[2..], c);
      InvalidRun(g, slots[2..], c);
    }
  }

  /** The first key behind j, given that there is one. */
  lemma NextKey(keys: set<int>, j: int, h: int) returns (k: int)
    requires h in keys && j < h
    ensures k in keys && j < k <= h && forall m :: m in keys ==> m <= j || m >= k
    decreases h - j
  {
    if forall m :: m in keys ==> m <= j || m >= h {
      k := h;
    } else {
      var m :| m in keys && j < m < h;
      k := NextKey(keys, j, m);
    }
  }

  /** The last key in front of k, given that there is one. */
  lemma PreviousKey(keys: set<int>, g: int, k: int) returns (j: int)
    requires g in keys && g < k
    ensures j in keys && g <= j < k && forall m :: m in keys ==> m <= j || m >= k
    decreases k - g
  {
    if forall m :: m in keys ==> m <= g || m >= k {
      j := g;
    } else {
      var m :| m in keys && g < m < k;
      j := PreviousKey(keys, m, k);
    }
  }

  /** Two marks with no listed point between them. */
  lemma MarksSideBySide(list: map<int, Sample>, gaps: set<int>, g: int, h: int)
    requires g in gaps && h in gaps && g < h && forall m :: m in list ==> m < g || m > h
    ensures !NoDoubleInvalid(WithGaps(list, gaps))
  {
    var marked := WithGaps(list, gaps);
    assert g in marked && h in marked;
    var k := NextKey(marked.Keys, g, h);
    assert k in gaps;
    assert Adjacent(marked, g, k);
  }

  /** A mark behind a valid point that is followed by an invalid one. */
  lemma MarkBesideInvalid(list: map<int, Sample>, gaps: set<int>, t: int, u: int, g: int)
    requires t < u && list.Keys == {t, u} && !list[u].Valid() && u !in gaps
    requires g in gaps && t < g
    ensures !NoDoubleInvalid(WithGaps(list, gaps))
  {
    var marked := WithGaps(list, gaps);
    assert g in marked && u in marked;
    if g < u {
      var j := PreviousKey(marked.Keys, g, u);
      assert j in gaps;
      assert Adjacent(marked, j, u);
    } else {
      var k := NextKey(marked.Keys, u, g);
      assert k in gaps;
      assert Adjacent(marked, u, k);
    }
  }

  lemma HarmfulMarks(times: seq<int>, gaps: set<int>, c: Cfg)
    requires AscendingTimes(times) && c.removeInvalid && (c.limited ==> c.max >= 2)
    requires forall i :: 0 <= i < |times| ==> times[i] !in gaps
    requires !MarksApart(times, gaps)
    ensures !GoodMarks(OneValid(times), times, gaps, c)
  {
    OneValidRun(times, c);
    var list := Run(OneValid(times), c).list;
    if |times| > 1 {
      assert SoonerTime(times, 0, 1);
    }
    if g, h :| g in gaps && h in gaps && g < h < times[0] {
      MarksSideBySide(list, gaps, g, h);
    } else {
      var g, h :| g in gaps && h in gaps && g > times[0] && h > times[0] && (g != h || |times| != 1);
      if |times| > 1 {
        MarkBesideInvalid(list, gaps, times[0], times[1], g);
      } else {
        MarksSideBySide(list, gaps, if g < h then g else h, if g < h then h else g);
      }
    }
  }

  /** Marking keeps invalid points apart, whatever the slots contain, if and only if at most one
      marked day lies in front of all slots, and none behind one, unless there is a single slot with
      a single marked day behind it. */
  lemma MarkingKeepsApartExactly(times: seq<int>, gaps: set<int>, c: Cfg)
    requires AscendingTimes(times) && c.removeInvalid && (c.limited ==> c.max >= 2)
    requires forall i :: 0 <= i < |times| ==> times[i] !in gaps
    ensures (forall slots: seq<Slot> :: GoodMarks(slots, times, gaps, c)) <==> MarksApart(times, gaps)
  {
    if MarksApart(times, gaps) {
      forall slots: seq<Slot> ensures GoodMarks(slots, times, gaps, c) {
        if Times(slots) == times && !Run(slots, c).stopped && Run(slots, c).hasValid {
          RunHasHarmlessMarks(slots, gaps, c);
        }
      }
    } else {
      HarmfulMarks(times, gaps, c);
    }
  }

  lemma RunHasHarmlessMarks(slots: seq<Slot>, gaps: set<int>, c: Cfg)
    requires AscendingTimes(Times(slots)) && MarksApart(Times(slots), gaps) && c.removeInvalid
    requires forall i :: 0 <= i < |slots| ==> Times(slots)[i] !in gaps
    requires !Run(slots, c).stopped && Run(slots, c).hasValid
    ensures NoDoubleInvalid(WithGaps(Run(slots, c).list, gaps))
  {
    var times, run := Times(slots), Run(slots, c);
    AscendingFromTimes(slots);
    FilterIsFaithful(slots, c);
    RunStartsValid(slots, c);
    assert slots[..run.seen] == slots;
    forall k | k in run.list ensures k in times && k !in gaps {
      assert ComesFrom(k, run.list[k], slots);
      var i :| 0 <= i < |slots| && k == slots[i].time && run.list[k] == Point(slots[i]);
      assert times[i] == k;
    }
    assert run.prev.time in run.list;
    forall t | t in times ensures t >= times[0] {
      var i :| 0 <= i < |times| && times[i] == t;
      assert i > 0 ==> SoonerTime(times, 0, i);
    }
    assert NoDoubleInvalid(run.list) by {
      forall j, k | Adjacent(run.list, j, k) ensures run.list[j].Valid() || run.list[k].Valid() {
        assert TellsMore(run.list[j], run.list[k], c);
      }
    }
    HarmlessMarks(run.list, times, gaps);
  }
}
