/** Running statistics over timestamped samples (gsiot/src/DataStoreMgr.cpp, DataStoreMgr.h):
    the in-place fold of raw samples, the merge of finished statistics into a larger one, and
    what the merged figures say about the raw samples they came from. */
module Stats {

  /** A raw value: its time, its data flag (0 is "invalid") and the value times 1000. */
  datatype Sample = Sample(time: int, flag: int, value: int) {
    predicate Valid() { flag != 0 }
  }

  /** The contents of a statistics record. A time of 0 means "no value yet". */
  datatype StatV = StatV(valid: bool, maxDt: int, max: int, minDt: int, min: int, avg: int, num: int)

  const EMPTY := StatV(false, 0, 0, 0, 0, 0, 0)

  // ---------- what a list of samples amounts to ----------

  ghost predicate PositiveTimes(s: seq<Sample>) {
    forall i :: 0 <= i < |s| ==> s[i].time > 0
  }

  ghost predicate AnyValid(s: seq<Sample>) {
    exists i :: 0 <= i < |s| && s[i].Valid()
  }

  function Count(s: seq<Sample>): (n: nat) {
    if s == [] then 0 else Count(s[..|s| - 1]) + if s[|s| - 1].Valid() then 1 else 0
  }

  function Sum(s: seq<Sample>): int {
    if s == [] then 0 else Sum(s[..|s| - 1]) + if s[|s| - 1].Valid() then s[|s| - 1].value else 0
  }

  /** Sample i is valid and holds the value x. */
  ghost predicate HasValue(s: seq<Sample>, i: int, x: int) {
    0 <= i < |s| && s[i].Valid() && s[i].value == x
  }

  ghost predicate Occurs(s: seq<Sample>, x: int) {
    exists i :: HasValue(s, i, x)
  }

  ghost predicate AtMost(s: seq<Sample>, x: int) {
    forall i :: 0 <= i < |s| && s[i].Valid() ==> s[i].value <= x
  }

  ghost predicate AtLeast(s: seq<Sample>, x: int) {
    forall i :: 0 <= i < |s| && s[i].Valid() ==> x <= s[i].value
  }

  /** t is the time of the first valid sample that holds x. */
  ghost predicate First(s: seq<Sample>, x: int, t: int) {
    exists i :: FirstAt(s, i, x, t)
  }

  ghost predicate FirstAt(s: seq<Sample>, i: int, x: int, t: int) {
    HasValue(s, i, x) && s[i].time == t && forall j :: 0 <= j < i ==> !HasValue(s, j, x)
  }

  /** v holds exactly the valid flag, the maximum and the minimum of the valid samples of s. */
  ghost predicate Extremes(s: seq<Sample>, v: StatV) {
    && (v.valid <==> AnyValid(s))
    && (v.valid ==>
          && v.maxDt > 0 && v.minDt > 0
          && Occurs(s, v.max) && AtMost(s, v.max)
          && Occurs(s, v.min) && AtLeast(s, v.min))
    && (!v.valid ==> v.maxDt == 0 && v.minDt == 0)
  }

  /** The recorded times are those of the first samples that attain the extremes. */
  ghost predicate FirstTimes(s: seq<Sample>, v: StatV) {
    v.valid ==> First(s, v.max, v.maxDt) && First(s, v.min, v.minDt)
  }

  /** v.num counts the valid samples; v.avg is less than `levels` away from their true mean,
      never above it when no valid value is negative, and never outside [v.min, v.max]. */
  ghost predicate Average(s: seq<Sample>, v: StatV, levels: nat) {
    && v.num == Count(s)
    && (v.num == 0 ==> v.avg == 0)
    && (v.num > 0 ==> -(levels * v.num) < v.avg * v.num - Sum(s) < levels * v.num)
    && (v.num > 0 && v.valid ==> v.min <= v.avg <= v.max)
    && (v.valid && v.min >= 0 ==> v.avg * v.num <= Sum(s))
  }

  ghost predicate Summary(s: seq<Sample>, v: StatV, levels: nat) {
    Extremes(s, v) && Average(s, v, levels)
  }

  // ---------- the steps of the source ----------

  predicate Excluded(t: int, begin: int, end: int) {
    begin != 0 && end != 0 && (t < begin || t > end)
  }

  /** g_AnalyseStat on one raw sample. */
  function Observe(v: StatV, t: int, x: int, begin: int, end: int): StatV {
    if Excluded(t, begin, end) then v
    else
      var v1 := if v.maxDt == 0 || x > v.max then v.(maxDt := t, max := x) else v;
      var v2 := if v1.minDt == 0 || x < v1.min then v1.(minDt := t, min := x) else v1;
      v2.(valid := true)
  }

  /** g_AnalyseStat on a finished statistic. The range test looks at v, as the source does. */
  function Absorb(v: StatV, sub: StatV, begin: int, end: int): StatV {
    if Excluded(v.maxDt, begin, end) || Excluded(v.minDt, begin, end) || !sub.valid then v
    else
      var v1 := if !v.valid || sub.max > v.max then v.(maxDt := sub.maxDt, max := sub.max) else v;
      var v2 := if !v.valid || sub.min < v1.min then v1.(minDt := sub.minDt, min := sub.min) else v1;
      v2.(valid := true)
  }

  /** Conversion of a floating quotient to int: towards zero. */
  function TruncDiv(a: int, n: int): int
    requires n > 0
  {
    if a >= 0 then a / n else -((-a) / n)
  }

  /** struStat::calc_avg. */
  function WithAvg(v: StatV, sum: int): StatV {
    v.(avg := if v.num > 0 then TruncDiv(sum, v.num) else 0)
  }

  /** The effect of one sample on the fold of a sample list. */
  function FoldStep(v: StatV, x: Sample, begin: int, end: int): StatV {
    if x.Valid() then Observe(v.(num := v.num + 1), x.time, x.value, begin, end) else v
  }

  function Fold(s: seq<Sample>, begin: int, end: int): StatV {
    if s == [] then EMPTY else FoldStep(Fold(s[..|s| - 1], begin, end), s[|s| - 1], begin, end)
  }

  /** One pass over a list of raw samples. */
  function StatOf(s: seq<Sample>): StatV {
    WithAvg(Fold(s, 0, 0), Sum(s))
  }

  /** The sum a merge loop accumulates: average times count of every valid row. */
  function WeightedSum(rows: seq<StatV>): int {
    if rows == [] then 0
    else
      var r := rows[|rows| - 1];
      WeightedSum(rows[..|rows| - 1]) + if r.valid then r.avg * r.num else 0
  }

  function MergeFold(rows: seq<StatV>): StatV {
    if rows == [] then EMPTY else MergeStep(MergeFold(rows[..|rows| - 1]), rows[|rows| - 1])
  }

  function MergeStep(v: StatV, r: StatV): StatV {
    if r.valid then Absorb(v.(num := v.num + r.num), r, 0, 0) else v
  }

  /** A whole merge loop followed by its final average. */
  function Merge(rows: seq<StatV>): StatV {
    WithAvg(MergeFold(rows), WeightedSum(rows))
  }

  function Flat(parts: seq<seq<Sample>>): seq<Sample> {
    if parts == [] then [] else Flat(parts[..|parts| - 1]) + parts[|parts| - 1]
  }

  // ---------- the record updated in place ----------

  class Stat {
    var valid: bool
    var maxDt: int
    var max: int
    var minDt: int
    var min: int
    var avg: int
    var num: int

    function View(): StatV
      reads this
    {
      StatV(valid, maxDt, max, minDt, min, avg, num)
    }

    constructor ()
      ensures View() == EMPTY
    {
      valid, maxDt, max, minDt, min, avg, num := false, 0, 0, 0, 0, 0, 0;
    }

    method AnalyseSample(t: int, x: int, begin: int, end: int)
      modifies this
      ensures View() == Observe(old(View()), t, x, begin, end)
      ensures View() == if begin == 0 || end == 0 || begin <= t <= end then Observe(old(View()), t, x, 0, 0)
                        else old(View())
    {
      if begin != 0 && end != 0 {
        if t < begin || t > end {
          return;
        }
      }
      if maxDt == 0 || x > max {
        maxDt, max := t, x;
      }
      if minDt == 0 || x < min {
        minDt, min := t, x;
      }
      if !valid {
        valid := true;
      }
    }

    method AnalyseSub(sub: StatV, begin: int, end: int)
      modifies this
      ensures View() == Absorb(old(View()), sub, begin, end)
      ensures View() == if begin == 0 || end == 0 || (begin <= old(maxDt) <= end && begin <= old(minDt) <= end)
                        then Absorb(old(View()), sub, 0, 0) else old(View())
    {
      if begin != 0 && end != 0 {
        if maxDt < begin || maxDt > end {
          return;
        }
        if minDt < begin || minDt > end {
          return;
        }
      }
      if !sub.valid {
        return;
      }
      if !valid || sub.max > max {
        maxDt, max := sub.maxDt, sub.max;
      }
      if !valid || sub.min < min {
        minDt, min := sub.minDt, sub.min;
      }
      if !valid {
        valid := true;
      }
    }

    method CalcAvg(sum: int)
      modifies this
      ensures View() == WithAvg(old(View()), sum)
      ensures View() == old(View()).(avg := avg) && (num <= 0 ==> avg == 0)
      ensures num > 0 && sum >= 0 ==> avg * num <= sum < avg * num + num
      ensures num > 0 && sum <= 0 ==> avg * num - num < sum <= avg * num
    {
      if num > 0 {
        TruncDivBounds(sum, num);
      }
      avg := if num > 0 then TruncDiv(sum, num) else 0;
    }
  }

  // ---------- one pass over raw samples ----------

  lemma {:induction false} FoldSums(s: seq<Sample>, begin: int, end: int)
    ensures Fold(s, begin, end).num == Count(s)
  {
    if s != [] {
      FoldSums(s[..|s| - 1], begin, end);
    }
  }

  lemma AnyValidConcat(a: seq<Sample>, b: seq<Sample>)
    ensures AnyValid(a + b) <==> AnyValid(a) || AnyValid(b)
  {
    var s := a + b;
    if AnyValid(a) {
      var i :| 0 <= i < |a| && a[i].Valid();
      assert s[i].Valid();
    }
    if AnyValid(b) {
      var i :| 0 <= i < |b| && b[i].Valid();
      assert s[|a| + i].Valid();
    }
    if AnyValid(s) {
      var i :| 0 <= i < |s| && s[i].Valid();
      assert if i < |a| then a[i].Valid() else b[i - |a|].Valid();
    }
  }

  lemma OccursConcat(a: seq<Sample>, b: seq<Sample>, x: int)
    ensures Occurs(a + b, x) <==> Occurs(a, x) || Occurs(b, x)
  {
    var s := a + b;
    forall i | HasValue(a, i, x) ensures HasValue(s, i, x) {}
    forall i | HasValue(b, i, x) ensures HasValue(s, |a| + i, x) {}
    forall i | HasValue(s, i, x) ensures HasValue(a, i, x) || HasValue(b, i - |a|, x) {}
  }

  lemma BoundsConcat(a: seq<Sample>, b: seq<Sample>, x: int)
    ensures AtMost(a + b, x) <==> AtMost(a, x) && AtMost(b, x)
    ensures AtLeast(a + b, x) <==> AtLeast(a, x) && AtLeast(b, x)
  {
    var s := a + b;
    assert forall i :: 0 <= i < |a| ==> s[i] == a[i];
    assert forall i :: 0 <= i < |b| ==> s[|a| + i] == b[i];
    assert forall i :: |a| <= i < |s| ==> s[i] == b[i - |a|];
  }

  lemma FirstLeft(a: seq<Sample>, b: seq<Sample>, x: int, t: int)
    requires First(a, x, t)
    ensures First(a + b, x, t)
  {
    var i :| FirstAt(a, i, x, t);
    forall j | 0 <= j < i ensures !HasValue(a + b, j, x) {
      assert !HasValue(a, j, x);
    }
    assert FirstAt(a + b, i, x, t);
  }

  lemma FirstRight(a: seq<Sample>, b: seq<Sample>, x: int, t: int)
    requires !Occurs(a, x) && First(b, x, t)
    ensures First(a + b, x, t)
  {
    var i :| FirstAt(b, i, x, t);
    forall j | 0 <= j < |a| + i ensures !HasValue(a + b, j, x) {
      assert !HasValue(a, j, x) && !HasValue(b, j - |a|, x);
    }
    assert FirstAt(a + b, |a| + i, x, t);
  }

  lemma NoValidNoBound(s: seq<Sample>, x: int)
    requires !AnyValid(s)
    ensures AtMost(s, x) && AtLeast(s, x) && !Occurs(s, x)
  {
  }

  lemma BeyondDoesNotOccur(s: seq<Sample>, x: int, y: int)
    ensures AtMost(s, x) && y > x ==> !Occurs(s, y)
    ensures AtLeast(s, x) && y < x ==> !Occurs(s, y)
  {
  }

  lemma BoundsAreMonotone(s: seq<Sample>, x: int, y: int)
    requires x <= y
    ensures AtMost(s, x) ==> AtMost(s, y)
    ensures AtLeast(s, y) ==> AtLeast(s, x)
  {
  }

  /** Absorbing the statistic of b into that of a gives the extremes of a followed by b. */
  lemma AbsorbExtremes(a: seq<Sample>, b: seq<Sample>, v: StatV, r: StatV)
    requires Extremes(a, v) && Extremes(b, r)
    ensures Extremes(a + b, MergeStep(v, r))
  {
    var w := MergeStep(v, r);
    AnyValidConcat(a, b);
    if w.valid {
      BoundsConcat(a, b, w.max);
      BoundsConcat(a, b, w.min);
      OccursConcat(a, b, w.max);
      OccursConcat(a, b, w.min);
      AbsorbSide(a, v, w);
      AbsorbSide(b, r, w);
    }
  }

  /** The bounds of one side, seen from the merged extremes. */
  lemma AbsorbSide(a: seq<Sample>, v: StatV, w: StatV)
    requires Extremes(a, v) && (v.valid ==> v.max <= w.max && w.min <= v.min)
    ensures AtMost(a, w.max) && AtLeast(a, w.min)
  {
    if v.valid {
      BoundsAreMonotone(a, v.max, w.max);
      BoundsAreMonotone(a, w.min, v.min);
    } else {
      NoValidNoBound(a, w.max);
      NoValidNoBound(a, w.min);
    }
  }

  lemma AbsorbFirstTimes(a: seq<Sample>, b: seq<Sample>, v: StatV, r: StatV)
    requires Extremes(a, v) && Extremes(b, r) && FirstTimes(a, v) && FirstTimes(b, r)
    ensures FirstTimes(a + b, MergeStep(v, r))
  {
    if r.valid && (!v.valid || r.max > v.max) {
      if v.valid {
        BeyondDoesNotOccur(a, v.max, r.max);
      } else {
        NoValidNoBound(a, r.max);
      }
      FirstRight(a, b, r.max, r.maxDt);
    } else if v.valid {
      FirstLeft(a, b, v.max, v.maxDt);
    }
    if r.valid && (!v.valid || r.min < v.min) {
      if v.valid {
        BeyondDoesNotOccur(a, v.min, r.min);
      } else {
        NoValidNoBound(a, r.min);
      }
      FirstRight(a, b, r.min, r.minDt);
    } else if v.valid {
      FirstLeft(a, b, v.min, v.minDt);
    }
  }

  /** One sample as a statistic of its own. */
  ghost function Single(x: Sample): StatV {
    if x.Valid() then StatV(true, x.time, x.value, x.time, x.value, x.value, 1) else EMPTY
  }

  lemma SingleExtremes(x: Sample)
    requires x.time > 0
    ensures Extremes([x], Single(x)) && FirstTimes([x], Single(x))
  {
    assert x.Valid() ==> [x][0].Valid() && HasValue([x], 0, x.value) && FirstAt([x], 0, x.value, x.time);
  }

  /** Appending a sample moves the extremes as absorbing that one sample would. */
  lemma SnocExtremes(s: seq<Sample>, v: StatV, x: Sample)
    requires Extremes(s, v) && FirstTimes(s, v) && x.time > 0
    ensures Extremes(s + [x], FoldStep(v, x, 0, 0)) && FirstTimes(s + [x], FoldStep(v, x, 0, 0))
  {
    SingleExtremes(x);
    AbsorbExtremes(s, [x], v, Single(x));
    AbsorbFirstTimes(s, [x], v, Single(x));
    assert FoldStep(v, x, 0, 0) == MergeStep(v, Single(x));
  }

  lemma {:induction false} FoldExtremes(s: seq<Sample>)
    requires PositiveTimes(s)
    ensures Extremes(s, Fold(s, 0, 0)) && FirstTimes(s, Fold(s, 0, 0))
  {
    if s != [] {
      var p, x := s[..|s| - 1], s[|s| - 1];
      assert s == p + [x];
      FoldExtremes(p);
      SnocExtremes(p, Fold(p, 0, 0), x);
    }
  }

  /** The sum of valid values lies between count times minimum and count times maximum. */
  lemma {:induction false} SumBounds(s: seq<Sample>, lo: int, hi: int)
    requires forall i :: 0 <= i < |s| && s[i].Valid() ==> lo <= s[i].value <= hi
    ensures lo * Count(s) <= Sum(s) <= hi * Count(s)
  {
    if s != [] {
      var p, x := s[..|s| - 1], s[|s| - 1];
      forall i | 0 <= i < |p| && p[i].Valid() ensures lo <= p[i].value <= hi {
        assert p[i] == s[i];
      }
      SumBounds(p, lo, hi);
      if x.Valid() {
        Distribute(lo, Count(p), 1);
        Distribute(hi, Count(p), 1);
      }
    }
  }

  lemma Distribute(a: int, b: int, c: int)
    ensures a * (b + c) == a * b + a * c
  {
  }

  lemma {:induction false} CountValid(s: seq<Sample>)
    ensures Count(s) > 0 <==> AnyValid(s)
  {
    if s != [] {
      var p := s[..|s| - 1];
      CountValid(p);
      if AnyValid(p) {
        var i :| 0 <= i < |p| && p[i].Valid();
        assert s[i].Valid();
      }
      if AnyValid(s) && !s[|s| - 1].Valid() {
        var i :| 0 <= i < |s| && s[i].Valid();
        assert p[i].Valid();
      }
    }
  }

  lemma TruncDivBounds(a: int, n: int)
    requires n > 0
    ensures -n < TruncDiv(a, n) * n - a < n
    ensures a >= 0 ==> 0 <= TruncDiv(a, n) && TruncDiv(a, n) * n <= a
    ensures a <= 0 ==> TruncDiv(a, n) <= 0 && a <= TruncDiv(a, n) * n
  {
    if a >= 0 {
      QuotientBounds(a, n);
    } else {
      QuotientBounds(-a, n);
      assert TruncDiv(a, n) * n == -(((-a) / n) * n);
    }
  }

  lemma QuotientBounds(a: nat, n: int)
    requires n > 0
    ensures 0 <= a / n && a - n < (a / n) * n <= a
  {
    assert a == (a / n) * n + a % n;
  }

  lemma TruncDivRange(a: int, n: int, lo: int, hi: int)
    requires n > 0 && lo * n <= a <= hi * n
    ensures lo <= TruncDiv(a, n) <= hi
  {
    TruncDivBounds(a, n);
    var q := TruncDiv(a, n);
    if q > hi {
      MulMono(hi + 1, q, n);
    } else if q < lo {
      MulMono(q + 1, lo, n);
    }
  }

  lemma MulMono(a: int, b: int, n: int)
    requires a <= b && n >= 0
    ensures a * n <= b * n
  {
  }

  /** One pass yields exactly the valid flag, extremes (first attaining times) and count, and an
      average less than 1 off. */
  lemma OnePass(s: seq<Sample>)
    requires PositiveTimes(s)
    ensures Summary(s, StatOf(s), 1) && FirstTimes(s, StatOf(s))
  {
    var f, v := Fold(s, 0, 0), StatOf(s);
    FoldExtremes(s);
    FoldSums(s, 0, 0);
    CountValid(s);
    assert Extremes(s, v) && FirstTimes(s, v);
    if v.num > 0 {
      SumBounds(s, v.min, v.max);
      TruncDivBounds(Sum(s), v.num);
      TruncDivRange(Sum(s), v.num, v.min, v.max);
      if v.min >= 0 {
        MulMono(0, v.min, v.num);
      }
    }
  }

  /** The average of a day is rounded towards zero. */
  lemma AverageTowardsZero(s: seq<Sample>)
    ensures var v := StatOf(s);
            && (Sum(s) >= 0 ==> 0 <= v.avg && v.avg * v.num <= Sum(s))
            && (Sum(s) <= 0 ==> v.avg <= 0 && Sum(s) <= v.avg * v.num)
  {
    FoldSums(s, 0, 0);
    if Count(s) > 0 {
      TruncDivBounds(Sum(s), Count(s));
    } else {
      CountValid(s);
      NothingValid(s);
    }
  }

  // ---------- merging finished statistics ----------

  lemma {:induction false} SumsOfConcat(a: seq<Sample>, b: seq<Sample>)
    ensures Count(a + b) == Count(a) + Count(b)
    ensures Sum(a + b) == Sum(a) + Sum(b)
  {
    if b == [] {
      assert a + b == a;
    } else {
      var p := b[..|b| - 1];
      assert (a + b)[..|a + b| - 1] == a + p;
      SumsOfConcat(a, p);
    }
  }

  /** What the accumulated sum w of averages times counts says about the true sum of s. */
  ghost predicate NearSum(s: seq<Sample>, v: StatV, w: int, levels: nat) {
    && v.num == Count(s)
    && (v.num > 0 ==> -(levels * v.num) < w - Sum(s) < levels * v.num)
    && (v.num == 0 ==> w == 0)
    && (v.valid ==> v.min * v.num <= w <= v.max * v.num)
    && (v.valid && v.min >= 0 ==> w <= Sum(s))
  }

  lemma NothingValid(s: seq<Sample>)
    requires !AnyValid(s)
    ensures Count(s) == 0 && Sum(s) == 0
  {
    CountValid(s);
    SumBounds(s, 0, 0);
  }

  lemma NearSumStep(a: seq<Sample>, b: seq<Sample>, v: StatV, w: int, r: StatV, levels: nat)
    requires levels > 0 && Extremes(a, v) && NearSum(a, v, w, levels) && Summary(b, r, levels)
    ensures NearSum(a + b, MergeStep(v, r), w + if r.valid then r.avg * r.num else 0, levels)
  {
    SumsOfConcat(a, b);
    CountValid(a);
    CountValid(b);
    if !r.valid {
      NothingValid(b);
    } else {
      var u := MergeStep(v, r);
      Distribute(levels, v.num, r.num);
      Distribute(u.min, v.num, r.num);
      Distribute(u.max, v.num, r.num);
      MulMono(r.avg, u.max, r.num);
      MulMono(u.min, r.avg, r.num);
      if v.valid {
        MulMono(v.max, u.max, v.num);
        MulMono(u.min, v.min, v.num);
      } else {
        NothingValid(a);
      }
    }
  }

  ghost predicate RowsSummarise(parts: seq<seq<Sample>>, rows: seq<StatV>, levels: nat) {
    |parts| == |rows| && forall i :: 0 <= i < |rows| ==> Summary(parts[i], rows[i], levels)
  }

  lemma {:induction false} MergeFoldSummary(parts: seq<seq<Sample>>, rows: seq<StatV>, levels: nat)
    requires levels > 0 && RowsSummarise(parts, rows, levels)
    ensures Extremes(Flat(parts), MergeFold(rows))
    ensures NearSum(Flat(parts), MergeFold(rows), WeightedSum(rows), levels)
  {
    if rows != [] {
      var n := |rows| - 1;
      var p, q := parts[..n], rows[..n];
      MergeFoldSummary(p, q, levels);
      AbsorbExtremes(Flat(p), parts[n], MergeFold(q), rows[n]);
      NearSumStep(Flat(p), parts[n], MergeFold(q), WeightedSum(q), rows[n], levels);
    }
  }

  lemma {:induction false} MergeFirstTimes(parts: seq<seq<Sample>>, rows: seq<StatV>, levels: nat)
    requires levels > 0 && RowsSummarise(parts, rows, levels)
    requires forall i :: 0 <= i < |rows| ==> FirstTimes(parts[i], rows[i])
    ensures FirstTimes(Flat(parts), Merge(rows))
  {
    if rows != [] {
      var n := |rows| - 1;
      var p, q := parts[..n], rows[..n];
      MergeFirstTimes(p, q, levels);
      MergeFoldSummary(p, q, levels);
      AbsorbFirstTimes(Flat(p), parts[n], MergeFold(q), rows[n]);
    }
  }

  /** The merge is exact in valid flag, extremes and count of all the raw samples below it, and
      one further truncation costs less than 1 more of the average. */
  lemma MergeSummary(parts: seq<seq<Sample>>, rows: seq<StatV>, levels: nat)
    requires levels > 0 && RowsSummarise(parts, rows, levels)
    ensures Summary(Flat(parts), Merge(rows), levels + 1)
  {
    var s, v, w := Flat(parts), Merge(rows), WeightedSum(rows);
    MergeFoldSummary(parts, rows, levels);
    assert Extremes(s, v);
    CountValid(s);
    if v.num > 0 {
      TruncDivBounds(w, v.num);
      TruncDivRange(w, v.num, v.min, v.max);
      if v.min >= 0 {
        MulMono(0, v.min, v.num);
      }
      Distribute(v.num, levels, 1);
    }
  }

  function PartRows(parts: seq<seq<Sample>>): (rows: seq<StatV>)
    ensures |rows| == |parts| && forall i :: 0 <= i < |parts| ==> rows[i] == StatOf(parts[i])
  {
    seq(|parts|, i requires 0 <= i < |parts| => StatOf(parts[i]))
  }

  lemma PartRowsSummarise(parts: seq<seq<Sample>>, i: nat)
    requires i < |parts| && PositiveTimes(parts[i])
    ensures Summary(parts[i], PartRows(parts)[i], 1) && FirstTimes(parts[i], PartRows(parts)[i])
  {
    OnePass(parts[i]);
  }

  /** Statistics made of ordered parts in one pass each, as the hour buckets are, merge to flag,
      extremes, first attaining times and count of the whole, and an average less than 2 off. */
  lemma {:induction false} PartsToOnePass(parts: seq<seq<Sample>>)
    requires forall i :: 0 <= i < |parts| ==> PositiveTimes(parts[i])
    ensures Summary(Flat(parts), Merge(PartRows(parts)), 2)
    ensures FirstTimes(Flat(parts), Merge(PartRows(parts)))
  {
    var rows := PartRows(parts);
    forall i | 0 <= i < |rows| ensures Summary(parts[i], rows[i], 1) && FirstTimes(parts[i], rows[i]) {
      PartRowsSummarise(parts, i);
    }
    MergeSummary(parts, rows, 1);
    MergeFirstTimes(parts, rows, 1);
  }

  /** A summary with first attaining times leaves nothing open except the average. */
  lemma SummaryIsUnique(s: seq<Sample>, v: StatV, w: StatV, k: nat, l: nat)
    requires Summary(s, v, k) && Summary(s, w, l)
    ensures v.valid == w.valid && v.num == w.num
    ensures v.valid ==> v.max == w.max && v.min == w.min
    ensures FirstTimes(s, v) && FirstTimes(s, w) ==> v.maxDt == w.maxDt && v.minDt == w.minDt
  {
  }

  /** The average bound read as a distance from the true mean. */
  lemma AverageIsNear(s: seq<Sample>, v: StatV, levels: nat)
    requires Summary(s, v, levels) && Count(s) > 0
    ensures var mean := Sum(s) as real / Count(s) as real;
            -(levels as real) < v.avg as real - mean < levels as real
  {
    RatioBound(v.avg, Sum(s), Count(s), levels);
  }

  lemma RatioBound(q: int, a: int, n: nat, k: nat)
    requires n > 0 && -(k * n) < q * n - a < k * n
    ensures -(k as real) < q as real - a as real / n as real < k as real
  {
    var r := n as real;
    var d := q as real - a as real / r;
    assert d * r == q as real * r - a as real == (q * n - a) as real;
    assert (k * n) as real == k as real * r;
    RealCancel(d, k as real, r);
    RealCancel(-(k as real), d, r);
  }

  lemma RealCancel(a: real, b: real, n: real)
    requires n > 0.0 && a * n < b * n
    ensures a < b
  {
    if a >= b {
      RealMono(b, a, n);
    }
  }

  lemma RealMono(a: real, b: real, n: real)
    requires n > 0.0 && a <= b
    ensures a * n <= b * n
  {
  }

  /** The range test of the statistic merge inspects the receiving record: a range leaves the merge
      as it is, for every incoming statistic, exactly when the times of the receiver's own extremes
      are in it. For a fresh record, whose times are 0, that is when the range holds 0 or is none. */
  lemma RangedMergeIsPlain(v: StatV, begin: int, end: int)
    ensures (forall r: StatV :: Absorb(v, r, begin, end) == Absorb(v, r, 0, 0))
       <==> begin == 0 || end == 0 || (begin <= v.maxDt <= end && begin <= v.minDt <= end)
    ensures (forall r: StatV :: r.valid ==> Absorb(EMPTY, r, begin, end).valid)
       <==> begin == 0 || end == 0 || begin <= 0 <= end
  {
    var higher := v.(valid := true, max := v.max + 1);
    assert Absorb(v, higher, 0, 0) != v;
    assert Absorb(v, higher, begin, end) == Absorb(v, higher, 0, 0)
        ==> !Excluded(v.maxDt, begin, end) && !Excluded(v.minDt, begin, end);
    assert Absorb(EMPTY, higher, begin, end).valid ==> !Excluded(0, begin, end);
  }
}
