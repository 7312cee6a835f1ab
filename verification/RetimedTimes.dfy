/** The attaining times of re-timed day records (gsiot/src/DataStoreMgr.cpp 1007-1031) and of what is
    merged from them. */
module RetimedTimes {
  import opened Stats
  import opened Lookup
  import opened DayRecord

  /** dt is the time of the first valid sample that holds x, or up to ten minutes before it. */
  ghost predicate NearFirst(s: seq<Sample>, x: int, dt: int) {
    exists t :: NearAt(s, x, dt, t)
  }

  ghost predicate NearAt(s: seq<Sample>, x: int, dt: int, t: int) {
    First(s, x, t) && t - 600 <= dt <= t
  }

  ghost predicate NearTimes(s: seq<Sample>, v: StatV) {
    v.valid ==> NearFirst(s, v.max, v.maxDt) && NearFirst(s, v.min, v.minDt)
  }

  // ---------- one day ----------

  /** A valid sample chosen for a slot is at most ten minutes behind it. */
  lemma ChosenIsNear(src: seq<Sample>, dayBegin: int, now: int, j: nat)
    requires Ordered(src) && dayBegin > 0
    ensures var c := Choice(src, dayBegin, now, j);
            c.Valid() ==>
              exists i :: 0 <= i < |src| && src[i] == c && src[i].time <= SlotTime(dayBegin, j) + VALID_RANGE_NEXT
  {
    var t := SlotTime(dayBegin, j);
    LeftIsBefore(t, src, VALID_RANGE_PREV, VALID_RANGE_NEXT);
    RightIsAfter(t, src, VALID_RANGE_PREV, VALID_RANGE_NEXT);
  }

  lemma HitIsNear(src: seq<Sample>, dayBegin: int, now: int, x: int, n: nat, h: int, t: int)
    requires Ordered(src) && dayBegin > 0 && First(src, x, t) && h in Hits(src, dayBegin, now, x, n)
    ensures t - VALID_RANGE_NEXT <= h
  {
    var j: nat :| j < n && Attains(src, dayBegin, now, j, x) && h == SlotTime(dayBegin, j);
    ChosenIsNear(src, dayBegin, now, j);
    var i :| 0 <= i < |src| && src[i] == Choice(src, dayBegin, now, j) && src[i].time <= h + VALID_RANGE_NEXT;
    var k :| FirstAt(src, k, x, t);
    assert HasValue(src, i, x);
    assert k < i ==> Earlier(src, k, i);
  }

  lemma FirstIsUnique(s: seq<Sample>, x: int, t: int, u: int)
    requires First(s, x, t) && First(s, x, u)
    ensures t == u
  {
    var i :| FirstAt(s, i, x, t);
    var j :| FirstAt(s, j, x, u);
    assert HasValue(s, i, x) && HasValue(s, j, x);
  }

  /** The times of a re-timed day record are at most ten minutes before the first samples that
      attain its extremes, and never after them. */
  lemma RetimedDayIsNear(s: seq<Sample>, v: StatV, dayBegin: int, now: int, n: nat)
    requires Ordered(s) && dayBegin > 0 && RetimedStat(StatOf(s), v, s, dayBegin, now, n)
    ensures NearTimes(s, v)
  {
    OnePass(s);
    var base := StatOf(s);
    if v.valid {
      if v.maxDt != base.maxDt {
        HitIsNear(s, dayBegin, now, v.max, n, v.maxDt, base.maxDt);
      }
      if v.minDt != base.minDt {
        HitIsNear(s, dayBegin, now, v.min, n, v.minDt, base.minDt);
      }
      assert NearAt(s, v.max, v.maxDt, base.maxDt) && NearAt(s, v.min, v.minDt, base.minDt);
    }
  }

  /** No slot in front of time t shows the value x. */
  ghost predicate NotShownBefore(s: seq<Sample>, dayBegin: int, now: int, x: int, n: nat, t: int) {
    forall h :: h in Hits(s, dayBegin, now, x, n) ==> h >= t
  }

  /** They are the first attaining times exactly when no earlier slot shows an extreme. */
  lemma RetimingKeepsFirstTimes(s: seq<Sample>, v: StatV, dayBegin: int, now: int, n: nat)
    requires Ordered(s) && dayBegin > 0 && RetimedStat(StatOf(s), v, s, dayBegin, now, n)
    ensures var base := StatOf(s);
            FirstTimes(s, v) <==>
              (v.valid ==>
                 NotShownBefore(s, dayBegin, now, v.max, n, base.maxDt)
                     && NotShownBefore(s, dayBegin, now, v.min, n, base.minDt))
  {
    OnePass(s);
    var base := StatOf(s);
    if v.valid && FirstTimes(s, v) {
      FirstIsUnique(s, v.max, v.maxDt, base.maxDt);
      FirstIsUnique(s, v.min, v.minDt, base.minDt);
    }
  }

  /** A day whose only sample lies up to ten minutes behind its beginning. */
  function LateSingle(dayBegin: int, late: nat, x: int): seq<Sample> {
    [Sample(dayBegin + late, 1, x)]
  }

  /** Its record says that the sample was taken at the beginning of the day: every distance up to
      ten minutes occurs. */
  lemma EveryDistanceOccurs(dayBegin: int, now: int, late: nat, x: int, v: StatV)
    requires dayBegin > 0 && now >= dayBegin && 0 < late <= 600
    requires RetimedStat(StatOf(LateSingle(dayBegin, late, x)), v, LateSingle(dayBegin, late, x), dayBegin, now, SLOTS)
    ensures var s := LateSingle(dayBegin, late, x);
            && v.valid && First(s, v.max, dayBegin + late) && First(s, v.min, dayBegin + late)
            && v.maxDt == v.minDt == dayBegin
            && !FirstTimes(s, v)
  {
    var s := LateSingle(dayBegin, late, x);
    SingleStat(s[0]);
    assert FirstAt(s, 0, x, dayBegin + late);
    NearestRefinesScan(dayBegin, s, VALID_RANGE_PREV, VALID_RANGE_NEXT);
    assert Candidate(s, 0, dayBegin, VALID_RANGE_PREV, VALID_RANGE_NEXT);
    assert Choice(s, dayBegin, now, 0) == s[0];
    assert Attains(s, dayBegin, now, 0, x);
    assert SlotTime(dayBegin, 0) in Hits(s, dayBegin, now, x, SLOTS);
    if FirstTimes(s, v) {
      FirstIsUnique(s, x, v.maxDt, dayBegin + late);
    }
  }

  lemma SingleStat(y: Sample)
    requires y.Valid() && y.time > 0
    ensures var v := StatOf([y]); v.valid && v.max == v.min == y.value && v.maxDt == v.minDt == y.time
  {
    assert [y][..0] == [];
    assert Fold([y], 0, 0) == FoldStep(Fold([], 0, 0), y, 0, 0);
  }

  // ---------- merging ----------

  lemma NearLeft(a: seq<Sample>, b: seq<Sample>, x: int, dt: int)
    requires NearFirst(a, x, dt)
    ensures NearFirst(a + b, x, dt)
  {
    var t :| NearAt(a, x, dt, t);
    FirstLeft(a, b, x, t);
    assert NearAt(a + b, x, dt, t);
  }

  lemma NearRight(a: seq<Sample>, b: seq<Sample>, x: int, dt: int)
    requires !Occurs(a, x) && NearFirst(b, x, dt)
    ensures NearFirst(a + b, x, dt)
  {
    var t :| NearAt(b, x, dt, t);
    FirstRight(a, b, x, t);
    assert NearAt(a + b, x, dt, t);
  }

  /** A value beyond the extremes of a does not occur in it. */
  lemma Beyond(a: seq<Sample>, v: StatV, x: int)
    requires Extremes(a, v) && (v.valid ==> x > v.max || x < v.min)
    ensures !Occurs(a, x)
  {
    if v.valid {
      if x > v.max {
        BeyondDoesNotOccur(a, v.max, x);
      }
    } else {
      NoValidNoBound(a, x);
    }
  }

  lemma AbsorbNearTimes(a: seq<Sample>, b: seq<Sample>, v: StatV, r: StatV)
    requires Extremes(a, v) && Extremes(b, r) && NearTimes(a, v) && NearTimes(b, r)
    ensures NearTimes(a + b, MergeStep(v, r))
  {
    if r.valid && (!v.valid || r.max > v.max) {
      Beyond(a, v, r.max);
      NearRight(a, b, r.max, r.maxDt);
    } else if v.valid {
      NearLeft(a, b, v.max, v.maxDt);
    }
    if r.valid && (!v.valid || r.min < v.min) {
      Beyond(a, v, r.min);
      NearRight(a, b, r.min, r.minDt);
    } else if v.valid {
      NearLeft(a, b, v.min, v.minDt);
    }
  }

  ghost predicate RowsNear(parts: seq<seq<Sample>>, rows: seq<StatV>) {
    |parts| == |rows| && forall i :: 0 <= i < |rows| ==> NearTimes(parts[i], rows[i])
  }

  /** Merging keeps the bound on the times. */
  lemma {:induction false} MergeNearTimes(parts: seq<seq<Sample>>, rows: seq<StatV>, levels: nat)
    requires levels > 0 && RowsSummarise(parts, rows, levels) && RowsNear(parts, rows)
    ensures NearTimes(Flat(parts), Merge(rows))
  {
    if rows != [] {
      var n := |rows| - 1;
      var p, q := parts[..n], rows[..n];
      MergeNearTimes(p, q, levels);
      MergeFoldSummary(p, q, levels);
      AbsorbNearTimes(Flat(p), parts[n], MergeFold(q), rows[n]);
    }
  }
}
