/** The spike filter and the save-on-change decision of a device address
    (gsiot/src/DeviceAddress.cpp 77-93, 324-394, 401-539, 572-606). Numbers kept as text in the
    source are reals here; the millisecond clock is an unsigned 32-bit argument. */
module Sampling {
  const CLOCK := 0x1_0000_0000

  datatype Reading = Reading(value: real, time: nat, tick: nat)

  /** A tracked extreme and its time; the time is 0 while there is none. */
  datatype Peak = Peak(value: real, time: nat)

  datatype State = State(cur: real, timeCur: nat, lastUpdate: nat, abnormal: nat, highest: Peak, lowest: Peak)

  function Abs(x: real): real {
    if x < 0.0 then -x else x
  }

  predicate Far(a: real, b: real) {
    Abs(a - b) > 5.0
  }

  /** Both trackers are updated by the same comparison (lines 381 and 387). */
  function Tracked(p: Peak, r: Reading): Peak {
    if p.time == 0 || r.value > p.value then Peak(r.value, r.time) else p
  }

  function Adopt(s: State, r: Reading): State {
    State(r.value, r.time, if r.tick == 0 then 1 else r.tick, s.abnormal, Tracked(s.highest, r), Tracked(s.lowest, r))
  }

  /** Is an analysed reading adopted and reported? */
  predicate Adopts(s: State, r: Reading) {
    s.lastUpdate != 0 && (Far(r.value, s.cur) ==> s.abnormal > 1)
  }

  /** The state after an analysed reading. */
  function Analysed(s: State, r: Reading): State {
    if s.lastUpdate == 0 then s.(cur := r.value, lastUpdate := 1)
    else if Adopts(s, r) then Adopt(s.(abnormal := 0), r)
    else s.(abnormal := s.abnormal + 1)
  }

  // ---------- save decisions ----------

  datatype Kind = CO2 | HCHO | PM25 | Wind | Temperature | Humidity | Other

  datatype Flag = Norm | First | TimePoint | Changed

  /** What a kind of device is saved by: the change range, the wind level table, the local day of
      the month of a time, and the two window lengths in seconds. */
  datatype Rules = Rules(kind: Kind, range: real, level: real -> int, mday: nat -> int, windowTime: nat,
      windowTimeMin: nat)

  datatype Saved = Saved(time: nat, value: real)

  function HalfHour(t: nat): nat {
    t / 1800 * 1800
  }

  /** g_TransToTimePoint: a save in the last minute of a half hour stands for the next one, unless
      a local day ends there (gsiot/src/common.cpp 2050-2083). */
  function TransToTimePoint(t: nat, isSave: bool, mday: nat -> int): nat {
    var next := HalfHour(t) + 1800;
    if isSave && t > next - 60 && mday(HalfHour(t)) == mday(next) then next else HalfHour(t)
  }

  function TimePointSecond(kind: Kind, prev: bool): nat {
    if prev then 60 else if kind == Wind then 5 * 60 else 3 * 60
  }

  /** g_isTimePoint: a disjunction that every time meets. */
  predicate IsTimePoint(t: nat, kind: Kind)
    ensures IsTimePoint(t, kind)
  {
    t > HalfHour(t) - TimePointSecond(kind, true) || t < HalfHour(t) + TimePointSecond(kind, false)
  }

  predicate HasChanged(rules: Rules, old_: real, new_: real) {
    if rules.kind == Wind then rules.level(old_) != rules.level(new_) else Abs(old_ - new_) >= rules.range
  }

  /** The last save still stands for a value at time t: it belongs to the same half hour, and the
      value has not moved away from it. */
  predicate Covers(rules: Rules, last: Saved, value: real, t: nat) {
    && last.time != 0
    && TransToTimePoint(t, false, rules.mday) == TransToTimePoint(last.time, true, rules.mday)
    && !HasChanged(rules, last.value, value)
  }

  /** A save at t1 and a reading at t belong to the same half hour; a save in the last minute of a half hour
      counts for the next one when that begins on the same local day. */
  predicate SamePoint(t1: nat, t: nat, mday: nat -> int) {
    t / 1800 == t1 / 1800 + if t1 % 1800 > 1740 && mday(t1 - t1 % 1800) == mday(t1 - t1 % 1800 + 1800) then 1 else 0
  }

  lemma PointsAgree(t1: nat, t: nat, mday: nat -> int)
    ensures TransToTimePoint(t, false, mday) == TransToTimePoint(t1, true, mday) <==> SamePoint(t1, t, mday)
  {
    assert HalfHour(t1) == t1 - t1 % 1800 && HalfHour(t) == t - t % 1800;
  }

  /** A save stands for a value at time t: at the same point, and of the same level for wind, or less than the
      range away for any other kind. */
  predicate StandsFor(rules: Rules, save: Saved, value: real, t: nat) {
    && save.time != 0 && SamePoint(save.time, t, rules.mday)
    && (rules.kind == Wind ==> rules.level(save.value) == rules.level(value))
    && (rules.kind != Wind ==> -rules.range < save.value - value < rules.range)
  }

  lemma CoversExactly(rules: Rules, last: Saved, value: real, t: nat)
    ensures Covers(rules, last, value, t) <==> StandsFor(rules, last, value, t)
  {
    PointsAgree(last.time, t, rules.mday);
  }

  /** A wind window in progress closes at this reading. */
  predicate WindowDue(rules: Rules, start: nat, lastSaveTime: nat, t: nat, tick: nat) {
    var span := (tick - start) % CLOCK;
    || span >= rules.windowTime * 1000 % CLOCK
    || (span > rules.windowTimeMin * 1000 % CLOCK
        && IsTimePoint(t, rules.kind)
        && TransToTimePoint(t, false, rules.mday) != TransToTimePoint(lastSaveTime, true, rules.mday))
  }

  function Larger(a: real, b: real): real {
    if a > b then a else b
  }

  class DeviceAddress {
    var curValue: real
    var timeCurValue: nat
    var lastUpdate: nat
    var abnormalCount: nat
    var curMax: Peak
    var curMin: Peak
    var lastSave: Saved
    var windowStart: nat
    var windowMax: real

    ghost function Now(): State
      reads this
    {
      State(curValue, timeCurValue, lastUpdate, abnormalCount, curMax, curMin)
    }

    constructor (value: real)
      ensures lastUpdate == 0 && curValue == value && lastSave == Saved(0, value)
      ensures abnormalCount == 0 && curMax == curMin && curMax.time == 0 && windowStart == 0
    {
      curValue, timeCurValue, lastUpdate := value, 0, 0;
      abnormalCount, curMax, curMin := 0, Peak(0.0, 0), Peak(0.0, 0);
      lastSave, windowStart, windowMax := Saved(0, value), 0, value;
    }

    method SetCurValue(r: Reading, analyse: bool) returns (ok: bool)
      modifies this`curValue, this`timeCurValue, this`lastUpdate, this`abnormalCount, this`curMax, this`curMin
      ensures Now() == if analyse then Analysed(old(Now()), r) else Adopt(old(Now()), r)
      ensures ok <==> (analyse ==> Adopts(old(Now()), r))
      ensures ok <==>
        || !analyse
        || (old(lastUpdate) != 0 && (-5.0 <= r.value - old(curValue) <= 5.0 || old(abnormalCount) > 1))
      ensures ok ==>
        && curValue == r.value && timeCurValue == r.time && lastUpdate == (if r.tick == 0 then 1 else r.tick)
        && abnormalCount == (if analyse then 0 else old(abnormalCount))
        && curMax == (if old(curMax.time == 0 || r.value > curMax.value) then Peak(r.value, r.time) else old(curMax))
        && curMin == (if old(curMin.time == 0 || r.value > curMin.value) then Peak(r.value, r.time) else old(curMin))
      ensures !ok ==>
        && timeCurValue == old(timeCurValue) && curMax == old(curMax) && curMin == old(curMin)
        && (if old(lastUpdate) == 0 then curValue == r.value && lastUpdate == 1 && abnormalCount == old(abnormalCount)
            else curValue == old(curValue) && lastUpdate == old(lastUpdate) && abnormalCount == old(abnormalCount) + 1)
    {
      if analyse {
        if lastUpdate == 0 {
          curValue := r.value;
          lastUpdate := lastUpdate + 1;
          return false;
        }
        if Abs(r.value - curValue) > 5.0 {
          if abnormalCount > 1 {
            abnormalCount := 0;
          } else {
            abnormalCount := abnormalCount + 1;
            return false;
          }
        }
        if abnormalCount != 0 {
          abnormalCount := 0;
        }
      }
      curValue := r.value;
      lastUpdate := r.tick;
      timeCurValue := r.time;
      if lastUpdate == 0 {
        lastUpdate := lastUpdate + 1;
      }
      if curMax.time == 0 || r.value > curMax.value {
        curMax := Peak(curValue, timeCurValue);
      }
      if curMin.time == 0 || r.value > curMin.value {
        curMin := Peak(curValue, timeCurValue);
      }
      return true;
    }

    /** One reading into the wind window; a closing window yields the greatest reading it saw. */
    method ValueWindow(rules: Rules, r: Reading) returns (finished: bool, finish: real)
      modifies this`windowStart, this`windowMax
      ensures finished <==> old(windowStart) != 0 && WindowDue(rules, old(windowStart), lastSave.time, r.time, r.tick)
      ensures var span := (r.tick - old(windowStart)) % 0x1_0000_0000;
              finished <==>
                && old(windowStart) != 0
                && (|| span >= rules.windowTime * 1000 % 0x1_0000_0000
                    || (span > rules.windowTimeMin * 1000 % 0x1_0000_0000
                        && !SamePoint(lastSave.time, r.time, rules.mday)))
      ensures finished ==> finish == Larger(r.value, old(windowMax)) && windowStart == 0
      ensures !finished ==> windowStart == (if old(windowStart) == 0 then r.tick else old(windowStart))
      ensures !finished ==> windowMax == if old(windowStart) == 0 then r.value else Larger(r.value, old(windowMax))
    {
      finished, finish := false, 0.0;
      PointsAgree(lastSave.time, r.time, rules.mday);
      if windowStart == 0 {
        windowStart, windowMax := r.tick, r.value;
      } else {
        if r.value > windowMax {
          windowMax := r.value;
        }
        var span := (r.tick - windowStart) % CLOCK;
        if span >= rules.windowTime * 1000 % CLOCK
           || (span > rules.windowTimeMin * 1000 % CLOCK
               && IsTimePoint(r.time, rules.kind)
               && TransToTimePoint(r.time, false, rules.mday) != TransToTimePoint(lastSave.time, true, rules.mday)) {
          finished, finish := true, windowMax;
          windowStart, windowMax := 0, 0.0;
        }
      }
    }

    /** The save decision. Whenever it decides, the last save stands for the decided value: either
        it has just been made of it, or it covers it. */
    method DataAnalyse(rules: Rules, r: Reading)
      returns (doSave: bool, flag: Flag, ghost decided: bool, ghost value: real)
      modifies this`lastSave, this`windowStart, this`windowMax
      ensures decided <==>
        && rules.kind != Other
        && (rules.kind == Wind ==>
              old(windowStart) != 0 && WindowDue(rules, old(windowStart), old(lastSave).time, r.time, r.tick))
      ensures value == if rules.kind == Wind then Larger(r.value, old(windowMax)) else r.value
      ensures doSave <==> decided && !StandsFor(rules, old(lastSave), value, r.time)
      ensures decided ==> lastSave == Saved(r.time, value) || StandsFor(rules, lastSave, value, r.time)
      ensures lastSave == if doSave then Saved(r.time, value) else old(lastSave)
      ensures doSave ==> flag == if old(lastSave).time == 0 then First
                                 else if SamePoint(old(lastSave).time, r.time, rules.mday)
                                 then Changed else TimePoint
      ensures rules.kind != Wind ==> windowStart == old(windowStart) && windowMax == old(windowMax)
    {
      doSave, flag := false, Norm;
      PointsAgree(lastSave.time, r.time, rules.mday);
      value := if rules.kind == Wind then Larger(r.value, windowMax) else r.value;
      decided := rules.kind != Other && rules.kind != Wind;
      if rules.kind != Other {
        var isFinishValue, newFinishValue := false, r.value;
        if rules.kind == Wind {
          var windowFinishValue;
          isFinishValue, windowFinishValue := ValueWindow(rules, r);
          if isFinishValue {
            newFinishValue := windowFinishValue;
          }
          decided := isFinishValue;
        } else {
          isFinishValue := true;
        }
        if isFinishValue {
          if lastSave.time != 0 {
            var newTimePoint := TransToTimePoint(r.time, false, rules.mday);
            var lastTimePoint := TransToTimePoint(lastSave.time, true, rules.mday);
            if newTimePoint != lastTimePoint {
              doSave := true;
              if IsTimePoint(r.time, rules.kind) {
                flag := TimePoint;
              }
            }
            if !doSave {
              if rules.kind == Wind {
                doSave := rules.level(lastSave.value) != rules.level(newFinishValue);
              } else {
                doSave := Abs(lastSave.value - newFinishValue) >= rules.range;
              }
              flag := Changed;
            }
          } else {
            doSave, flag := true, First;
          }
          if doSave {
            lastSave := Saved(r.time, newFinishValue);
          }
        }
      }
    }
  }

  // ---------- runs of the spike filter ----------

  /** The state before reading i of a run of analysed readings. */
  function StateAt(s: State, rs: seq<Reading>, i: nat): State
    requires i <= |rs|
  {
    if i == 0 then s else Analysed(StateAt(s, rs, i - 1), rs[i - 1])
  }

  /** The filter as a history: the value before reading i, without any counter. */
  function ValueAt(c: real, rs: seq<Reading>, i: nat): real
    requires i <= |rs|
    decreases i, 0
  {
    if i == 0 then c else if Taken(c, rs, i - 1) then rs[i - 1].value else ValueAt(c, rs, i - 1)
  }

  /** A reading is taken when it is near the current value, or when it is the third in a row. */
  predicate Taken(c: real, rs: seq<Reading>, i: nat)
    requires i < |rs|
    decreases i, 1
  {
    Far(rs[i].value, ValueAt(c, rs, i)) ==> i >= 2 && !Taken(c, rs, i - 1) && !Taken(c, rs, i - 2)
  }

  /** How many readings just before i were turned down; never more than two. */
  function TurnedDown(c: real, rs: seq<Reading>, i: nat): nat
    requires i <= |rs|
  {
    if i == 0 || Taken(c, rs, i - 1) then 0
    else if i == 1 || Taken(c, rs, i - 2) then 1
    else 2
  }

  lemma {:induction false} AtMostTwoInARow(c: real, rs: seq<Reading>, i: nat)
    requires i + 2 < |rs|
    ensures Taken(c, rs, i) || Taken(c, rs, i + 1) || Taken(c, rs, i + 2)
  {
    assert i + 2 - 1 == i + 1 && i + 2 - 2 == i;
  }

  /** From a clear counter the filter decides every reading of every run by its history alone. */
  lemma {:induction false} FilterIsHistory(s: State, rs: seq<Reading>, i: nat)
    requires s.lastUpdate != 0 && s.abnormal == 0 && i <= |rs|
    ensures StateAt(s, rs, i).lastUpdate != 0
    ensures StateAt(s, rs, i).cur == ValueAt(s.cur, rs, i)
    ensures StateAt(s, rs, i).abnormal == TurnedDown(s.cur, rs, i)
    ensures i < |rs| ==> (Adopts(StateAt(s, rs, i), rs[i]) <==> Taken(s.cur, rs, i))
  {
    if i > 0 {
      FilterIsHistory(s, rs, i - 1);
    }
  }

  /** A far reading is adopted only as the third of three consecutive readings that were all far
      from one and the same current value. */
  lemma {:induction false} FarOnlyAsThird(s: State, rs: seq<Reading>, i: nat)
    requires s.lastUpdate != 0 && s.abnormal == 0 && i < |rs|
    requires Far(rs[i].value, StateAt(s, rs, i).cur) && Adopts(StateAt(s, rs, i), rs[i])
    ensures i >= 2
    ensures StateAt(s, rs, i - 2).cur == StateAt(s, rs, i).cur == StateAt(s, rs, i - 1).cur
    ensures Far(rs[i - 1].value, StateAt(s, rs, i).cur) && Far(rs[i - 2].value, StateAt(s, rs, i).cur)
    ensures !Adopts(StateAt(s, rs, i - 1), rs[i - 1]) && !Adopts(StateAt(s, rs, i - 2), rs[i - 2])
  {
    FilterIsHistory(s, rs, i);
    FilterIsHistory(s, rs, i - 1);
    FilterIsHistory(s, rs, i - 2);
  }

  predicate InBand(lo: real, hi: real, v: real) {
    lo <= v <= hi
  }

  /** A reading too far from every value of the band. */
  predicate Outlier(lo: real, hi: real, v: real) {
    v < lo - 5.0 || v > hi + 5.0
  }

  predicate ThreeOutliers(lo: real, hi: real, rs: seq<Reading>, i: nat)
    requires i + 2 < |rs|
  {
    Outlier(lo, hi, rs[i].value) && Outlier(lo, hi, rs[i + 1].value) && Outlier(lo, hi, rs[i + 2].value)
  }

  ghost predicate Separated(lo: real, hi: real, rs: seq<Reading>) {
    forall i :: 0 <= i < |rs| ==> InBand(lo, hi, rs[i].value) || Outlier(lo, hi, rs[i].value)
  }

  /** How many outliers end just before i. */
  function OutliersBefore(lo: real, hi: real, rs: seq<Reading>, i: nat): nat
    requires i <= |rs|
  {
    if i == 0 || !Outlier(lo, hi, rs[i - 1].value) then 0 else OutliersBefore(lo, hi, rs, i - 1) + 1
  }

  lemma {:induction false} BandKept(lo: real, hi: real, c: real, rs: seq<Reading>, i: nat)
    requires hi - lo <= 5.0 && InBand(lo, hi, c) && Separated(lo, hi, rs) && i <= |rs|
    requires forall k: nat :: k + 2 < |rs| ==> !ThreeOutliers(lo, hi, rs, k)
    ensures InBand(lo, hi, ValueAt(c, rs, i))
    ensures TurnedDown(c, rs, i) == OutliersBefore(lo, hi, rs, i) <= 2
  {
    if i > 0 {
      BandKept(lo, hi, c, rs, i - 1);
      if Outlier(lo, hi, rs[i - 1].value) && i >= 3 {
        assert !ThreeOutliers(lo, hi, rs, i - 3);
      }
    }
  }

  /** While every reading lies in a band at most 5 wide or more than 5 outside it, the current
      value never leaves the band exactly when no three readings in a row are outliers: bursts of
      one or two glitches never show, a third one always does. */
  lemma GlitchesNeverShow(lo: real, hi: real, s: State, rs: seq<Reading>)
    requires s.lastUpdate != 0 && s.abnormal == 0
    requires hi - lo <= 5.0 && InBand(lo, hi, s.cur) && Separated(lo, hi, rs)
    ensures (forall i: nat :: i <= |rs| ==> InBand(lo, hi, StateAt(s, rs, i).cur))
       <==> (forall k: nat :: k + 2 < |rs| ==> !ThreeOutliers(lo, hi, rs, k))
  {
    if forall k: nat :: k + 2 < |rs| ==> !ThreeOutliers(lo, hi, rs, k) {
      forall i: nat | i <= |rs| ensures InBand(lo, hi, StateAt(s, rs, i).cur) {
        FilterIsHistory(s, rs, i);
        BandKept(lo, hi, s.cur, rs, i);
      }
    } else {
      var k: nat :| k + 2 < |rs| && ThreeOutliers(lo, hi, rs, k);
      var i := ThirdShows(lo, hi, s, rs, k);
    }
  }

  lemma ThirdShows(lo: real, hi: real, s: State, rs: seq<Reading>, k: nat) returns (i: nat)
    requires s.lastUpdate != 0 && s.abnormal == 0
    requires k + 2 < |rs| && ThreeOutliers(lo, hi, rs, k)
    ensures k < i <= k + 3 && !InBand(lo, hi, StateAt(s, rs, i).cur)
  {
    AtMostTwoInARow(s.cur, rs, k);
    i := if Taken(s.cur, rs, k) then k + 1 else if Taken(s.cur, rs, k + 1) then k + 2 else k + 3;
    FilterIsHistory(s, rs, i);
  }

  predicate AdoptsAt(s: State, rs: seq<Reading>, j: nat)
    requires j < |rs|
  {
    Adopts(StateAt(s, rs, j), rs[j])
  }

  /** Reading k is the first of the greatest readings adopted before i. */
  ghost predicate FirstGreatest(s: State, rs: seq<Reading>, k: nat, i: nat)
    requires i <= |rs|
  {
    && k < i && AdoptsAt(s, rs, k)
    && forall j: nat :: j < i && AdoptsAt(s, rs, j)
        ==> rs[j].value <= rs[k].value && (j < k ==> rs[j].value < rs[k].value)
  }

  /** The maximum tracker holds the greatest adopted value and the time it was first adopted; the
      minimum tracker, updated by the same comparison, never differs from it. */
  lemma {:induction false} BothTrackersHoldTheMaximum(s: State, rs: seq<Reading>, i: nat) returns (k: nat)
    requires s.highest == s.lowest && s.highest.time == 0 && i <= |rs|
    requires forall j :: 0 <= j < |rs| ==> rs[j].time > 0
    ensures StateAt(s, rs, i).lowest == StateAt(s, rs, i).highest
    ensures StateAt(s, rs, i).highest.time == 0 <==> forall j: nat :: j < i ==> !AdoptsAt(s, rs, j)
    ensures StateAt(s, rs, i).highest.time != 0 ==>
      FirstGreatest(s, rs, k, i) && StateAt(s, rs, i).highest == Peak(rs[k].value, rs[k].time)
  {
    k := 0;
    if i > 0 {
      k := BothTrackersHoldTheMaximum(s, rs, i - 1);
      var before, r := StateAt(s, rs, i - 1), rs[i - 1];
      assert StateAt(s, rs, i) == Analysed(before, r);
      assert AdoptsAt(s, rs, i - 1) <==> Adopts(before, r);
      if Adopts(before, r) && (before.highest.time == 0 || r.value > before.highest.value) {
        k := i - 1;
      }
    }
  }

  /** So the minimum tracker is a lower bound of the adopted values only when all of them are equal. */
  lemma MinimumOnlyWhenAllEqual(s: State, rs: seq<Reading>, i: nat)
    requires s.highest == s.lowest && s.highest.time == 0 && i <= |rs|
    requires forall j :: 0 <= j < |rs| ==> rs[j].time > 0
    ensures (forall j: nat :: j < i && AdoptsAt(s, rs, j) ==> StateAt(s, rs, i).lowest.value <= rs[j].value)
       <==> (forall j: nat, k: nat ::
               j < i && k < i && AdoptsAt(s, rs, j) && AdoptsAt(s, rs, k) ==> rs[j].value == rs[k].value)
  {
    var k := BothTrackersHoldTheMaximum(s, rs, i);
  }

  /** Setting up: the first reading of an address is stored but neither reported nor tracked, and
      the rest of the run is filtered as a run of its own. */
  lemma {:induction false} FirstReadingPrimes(s: State, rs: seq<Reading>, i: nat)
    requires s.lastUpdate == 0 && i < |rs|
    ensures var primed := Analysed(s, rs[0]);
            && StateAt(s, rs, i + 1) == StateAt(primed, rs[1..], i)
            && !Adopts(s, rs[0])
            && primed == s.(cur := rs[0].value, lastUpdate := 1)
  {
    if i > 0 {
      FirstReadingPrimes(s, rs, i - 1);
    } else {
      assert StateAt(s, rs, 0) == s;
    }
  }

  // ---------- runs of save decisions ----------

  /** The saves made of a run of decided values, with the last save before them. */
  function SavesOf(rules: Rules, last: Saved, vs: seq<Saved>, i: nat): seq<Saved>
    requires i <= |vs|
  {
    if i == 0 then []
    else
      var before := SavesOf(rules, last, vs, i - 1);
      if Covers(rules, LastOf(last, before), vs[i - 1].value, vs[i - 1].time) then before else before + [vs[i - 1]]
  }

  function LastOf(last: Saved, saves: seq<Saved>): Saved {
    if saves == [] then last else saves[|saves| - 1]
  }

  ghost predicate NoneCovered(rules: Rules, saves: seq<Saved>) {
    forall k :: 0 < k < |saves| ==> !StandsFor(rules, saves[k - 1], saves[k].value, saves[k].time)
  }

  /** Save-on-change is a faithful log. Reading i always has a stand-in, the latest save made up to
      it: in the same half hour (or the minute before it) and the value itself or not changed from
      it. No save is made that the one before would have covered. */
  lemma {:induction false} SavesStandForReadings(rules: Rules, last: Saved, vs: seq<Saved>, i: nat)
    requires i < |vs| && forall j :: 0 <= j < |vs| ==> vs[j].time > 0
    ensures var saves := SavesOf(rules, last, vs, i + 1);
            var standIn := LastOf(last, saves);
            && standIn.time > 0
            && (standIn == vs[i] || StandsFor(rules, standIn, vs[i].value, vs[i].time))
            && (forall k :: 0 <= k < |saves| ==> saves[k] in vs[..i + 1])
            && NoneCovered(rules, [last] + saves)
  {
    var before, saves := SavesOf(rules, last, vs, i), SavesOf(rules, last, vs, i + 1);
    if i > 0 {
      SavesStandForReadings(rules, last, vs, i - 1);
      assert vs[..i + 1] == vs[..i] + [vs[i]];
    }
    CoversExactly(rules, LastOf(last, before), vs[i].value, vs[i].time);
    if saves != before {
      NoneCoveredSnoc(rules, last, before, vs[i]);
    }
  }

  lemma NoneCoveredSnoc(rules: Rules, last: Saved, before: seq<Saved>, x: Saved)
    requires NoneCovered(rules, [last] + before) && !StandsFor(rules, LastOf(last, before), x.value, x.time)
    ensures NoneCovered(rules, [last] + (before + [x])) && LastOf(last, before + [x]) == x
  {
    var all := [last] + (before + [x]);
    assert all == ([last] + before) + [x];
    assert LastOf(last, before) == ([last] + before)[|before|];
    assert forall k :: 0 <= k <= |before| ==> all[k] == ([last] + before)[k];
  }

  /** After a save in the last minute of a half hour, a further reading of that half hour is saved
      whatever its value, unless a local day ends there; then it is saved only on a change. */
  lemma LastMinuteSavesAll(rules: Rules, last: Saved, value: real, t: nat)
    requires last.time / 1800 == t / 1800 && last.time % 1800 > 1740
    ensures var changed := if rules.kind == Wind then rules.level(last.value) != rules.level(value)
                           else last.value - value >= rules.range || value - last.value >= rules.range;
            !Covers(rules, last, value, t) <==>
              rules.mday(t / 1800 * 1800) == rules.mday(t / 1800 * 1800 + 1800) || changed
  {
    assert last.time == HalfHour(last.time) + last.time % 1800;
  }

  // ---------- runs of the wind window ----------

  /** The running maximum of a window after its first reading and the i readings behind it. */
  function WindowMaxAt(rs: seq<Reading>, i: nat): real
    requires i < |rs|
  {
    if i == 0 then rs[0].value else Larger(rs[i].value, WindowMaxAt(rs, i - 1))
  }

  /** What a closing window yields is one of its readings, and none of them is greater. */
  lemma {:induction false} WindowYieldsMaximum(rs: seq<Reading>, i: nat)
    requires i < |rs|
    ensures forall j :: 0 <= j <= i ==> rs[j].value <= WindowMaxAt(rs, i)
    ensures exists j :: 0 <= j <= i && rs[j].value == WindowMaxAt(rs, i)
  {
    if i > 0 {
      WindowYieldsMaximum(rs, i - 1);
      var j :| 0 <= j <= i - 1 && rs[j].value == WindowMaxAt(rs, i - 1);
      assert rs[if rs[i].value > rs[j].value then i else j].value == WindowMaxAt(rs, i);
    } else {
      assert rs[0].value == WindowMaxAt(rs, i);
    }
  }
}
