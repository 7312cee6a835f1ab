/** The loops that roll raw samples up into window and hour statistics
    (gsiot/src/DataStoreMgr.cpp). */
module Rollup {
  import opened Stats
  import opened Lookup

  // ---------- samples of a time window ----------

  lemma BoundsMeet(s: seq<Sample>, b: int, c: int)
    requires Ordered(s) && b <= c
    ensures LowerBound(s, b) <= LowerBound(s, c)
  {
    var i, j := LowerBound(s, b), LowerBound(s, c);
    if j < i {
      BelowBound(s, b, j);
    }
  }

  /** The samples with begin <= time <= end, in order. */
  function Window(s: seq<Sample>, begin: int, end: int): (w: seq<Sample>)
    requires Ordered(s) && begin <= end + 1
    ensures Ordered(w)
  {
    BoundsMeet(s, begin, end + 1);
    OrderedSlice(s, LowerBound(s, begin), UpperBound(s, end));
    s[LowerBound(s, begin)..UpperBound(s, end)]
  }

  /** Position i is inside the window exactly when its time is. */
  lemma WindowTimes(s: seq<Sample>, begin: int, end: int, i: nat)
    requires Ordered(s) && begin <= end + 1 && i < |s|
    ensures LowerBound(s, begin) <= i < UpperBound(s, end) <==> begin <= s[i].time <= end
  {
    BelowBound(s, begin, i);
    BelowBound(s, end + 1, i);
  }

  /** The window holds the samples of s with a time in [begin, end] and no others. */
  lemma WindowMembers(s: seq<Sample>, begin: int, end: int, x: Sample)
    requires Ordered(s) && begin <= end + 1
    ensures x in Window(s, begin, end) <==> x in s && begin <= x.time <= end
  {
    var w, lo := Window(s, begin, end), LowerBound(s, begin);
    BoundsMeet(s, begin, end + 1);
    if x in w {
      var i :| 0 <= i < |w| && w[i] == x;
      WindowTimes(s, begin, end, lo + i);
    }
    if x in s && begin <= x.time <= end {
      var i :| 0 <= i < |s| && s[i] == x;
      WindowTimes(s, begin, end, i);
      assert w[i - lo] == x;
    }
  }

  /** Folding one more sample of a window, seen from the front of the list. */
  lemma FoldNext(w: seq<Sample>, k: nat, begin: int, end: int)
    requires k < |w| && begin <= w[k].time <= end
    ensures Fold(w[..k + 1], 0, 0) == FoldStep(Fold(w[..k], 0, 0), w[k], begin, end)
    ensures Sum(w[..k + 1]) == Sum(w[..k]) + if w[k].Valid() then w[k].value else 0
  {
    assert w[..k + 1][..k] == w[..k];
  }

  /** GetOneStatForSpecTime_lst. Callers pass a fresh record. */
  method GetOneStatForSpecTime(begin: int, end: int, s: seq<Sample>, stat: Stat)
    requires Ordered(s) && begin <= end + 1 && stat.View() == EMPTY
    modifies stat
    ensures stat.View() == StatOf(Window(s, begin, end))
  {
    ghost var w := Window(s, begin, end);
    var itBegin := LowerBound(s, begin);
    BoundsMeet(s, begin, end + 1);
    if itBegin == |s| {
      return;
    }
    var itEnd := UpperBound(s, end);
    var sum := 0;
    var it := itBegin;
    while it != itEnd
      invariant itBegin <= it <= itEnd
      invariant stat.View() == Fold(w[..it - itBegin], 0, 0)
      invariant sum == Sum(w[..it - itBegin])
      decreases itEnd - it
    {
      WindowTimes(s, begin, end, it);
      FoldNext(w, it - itBegin, begin, end);
      if s[it].Valid() {
        sum := sum + s[it].value;
        stat.num := stat.num + 1;
        stat.AnalyseSample(s[it].time, s[it].value, begin, end);
      }
      it := it + 1;
    }
    assert w[..itEnd - itBegin] == w;
    stat.CalcAvg(sum);
  }

  // ---------- hour buckets ----------

  /** The time at which bucket k begins. */
  function Mark(begin: int, span: int, k: nat): int {
    if k == 0 then begin else Mark(begin, span, k - 1) + span
  }

  lemma {:induction false} MarkIs(begin: int, span: int, k: nat)
    ensures Mark(begin, span, k) == begin + k * span
  {
    if k > 0 {
      MarkIs(begin, span, k - 1);
      Distribute(span, k - 1, 1);
    }
  }

  lemma {:induction false} MarkMono(begin: int, span: int, j: nat, k: nat)
    requires j <= k && span > 0
    ensures Mark(begin, span, j) <= Mark(begin, span, k) - (k - j)
  {
    if j < k {
      MarkMono(begin, span, j, k - 1);
    }
  }

  function Bucket(s: seq<Sample>, begin: int, span: int, k: nat): seq<Sample>
    requires Ordered(s) && span > 0
  {
    Window(s, Mark(begin, span, k), Mark(begin, span, k) + span - 1)
  }

  function Buckets(s: seq<Sample>, begin: int, span: int, n: nat): (bs: seq<seq<Sample>>)
    requires Ordered(s) && span > 0
    ensures |bs| == n
  {
    seq(n, k requires 0 <= k < n => Bucket(s, begin, span, k))
  }

  /** How many buckets the loop of the source visits. */
  function BucketCount(begin: int, end: int, span: int): nat
    requires span > 0
  {
    if end < begin then 0 else (end - begin) / span + 1
  }

  /** The count is the first k whose mark lies past the end. */
  lemma CountMarks(begin: int, end: int, span: int)
    requires span > 0
    ensures Mark(begin, span, BucketCount(begin, end, span)) > end
    ensures begin <= end ==>
              Mark(begin, span, BucketCount(begin, end, span)) == end + span - (end - begin) % span
  {
    var n := BucketCount(begin, end, span);
    MarkIs(begin, span, n);
    if begin <= end {
      var q := (end - begin) / span;
      assert end - begin == q * span + (end - begin) % span;
      Distribute(span, q, 1);
    }
  }

  /** The first n buckets, one after the other, are the window they span: no sample of it is
      lost and none is counted twice. */
  lemma {:induction false} BucketsPartition(s: seq<Sample>, begin: int, span: int, n: nat)
    requires Ordered(s) && span > 0
    ensures begin <= Mark(begin, span, n)
    ensures Flat(Buckets(s, begin, span, n)) == Window(s, begin, Mark(begin, span, n) - 1)
  {
    if n > 0 {
      BucketsPartition(s, begin, span, n - 1);
      BucketsStep(s, begin, span, n);
      WindowSplit(s, begin, Mark(begin, span, n - 1), Mark(begin, span, n) - 1);
    }
  }

  lemma BucketsStep(s: seq<Sample>, begin: int, span: int, n: nat)
    requires Ordered(s) && span > 0 && n > 0
    ensures Buckets(s, begin, span, n)[..n - 1] == Buckets(s, begin, span, n - 1)
    ensures Buckets(s, begin, span, n)[n - 1] == Bucket(s, begin, span, n - 1)
  {
  }

  lemma WindowSplit(s: seq<Sample>, b: int, c: int, e: int)
    requires Ordered(s) && b <= c <= e + 1
    ensures Window(s, b, c - 1) + Window(s, c, e) == Window(s, b, e)
  {
    BoundsMeet(s, b, c);
    BoundsMeet(s, c, e + 1);
  }

  /** Merging the buckets in order gives the flag, extremes, first attaining times and count of
      one direct pass over the whole span, and an average less than 2 off. */
  lemma BucketsMergeToOnePass(s: seq<Sample>, begin: int, span: int, n: nat)
    requires Ordered(s) && span > 0 && begin <= Mark(begin, span, n)
    ensures var w := Window(s, begin, Mark(begin, span, n) - 1);
            var merged, direct := Merge(PartRows(Buckets(s, begin, span, n))), StatOf(w);
            && merged.(avg := 0) == direct.(avg := 0)
            && Average(w, merged, 2)
  {
    var bs := Buckets(s, begin, span, n);
    var w := Window(s, begin, Mark(begin, span, n) - 1);
    BucketsPartition(s, begin, span, n);
    forall k | 0 <= k < |bs| ensures PositiveTimes(bs[k]) {
      assert bs[k] == Bucket(s, begin, span, k);
    }
    PartsToOnePass(bs);
    OnePass(w);
    SummaryIsUnique(w, Merge(PartRows(bs)), StatOf(w), 2, 1);
    UntouchedMerge(PartRows(bs));
    UntouchedFold(w);
  }

  /** Without a valid sample the value fields keep what a fresh record holds. */
  lemma {:induction false} UntouchedFold(s: seq<Sample>)
    ensures !Fold(s, 0, 0).valid ==> Fold(s, 0, 0).max == 0 && Fold(s, 0, 0).min == 0
  {
    if s != [] {
      UntouchedFold(s[..|s| - 1]);
    }
  }

  lemma {:induction false} UntouchedMerge(rows: seq<StatV>)
    ensures !MergeFold(rows).valid ==> MergeFold(rows).max == 0 && MergeFold(rows).min == 0
  {
    if rows != [] {
      UntouchedMerge(rows[..|rows| - 1]);
    }
  }

  /** How many valid samples the buckets of a loop over [begin, end] count. */
  ghost function CountedInBuckets(s: seq<Sample>, begin: int, end: int, span: int): nat
    requires Ordered(s) && span > 0
  {
    Count(Flat(Buckets(s, begin, span, BucketCount(begin, end, span))))
  }

  ghost predicate CountsWindow(s: seq<Sample>, begin: int, end: int, span: int)
    requires span > 0 && begin <= end
  {
    Ordered(s) ==> CountedInBuckets(s, begin, end, span) == Count(Window(s, begin, end))
  }

  lemma CountedUpTo(s: seq<Sample>, begin: int, end: int, span: int, last: int)
    requires Ordered(s) && span > 0 && begin <= end <= last
    requires Mark(begin, span, BucketCount(begin, end, span)) == last + 1
    ensures CountedInBuckets(s, begin, end, span) == Count(Window(s, begin, last))
  {
    BucketsPartition(s, begin, span, BucketCount(begin, end, span));
  }

  /** The bucketing counts exactly the window [begin, end], for every sample list, if and only if
      the span divides the length of the window; otherwise the last bucket reaches past it. */
  lemma BucketsCoverExactly(begin: int, end: int, span: int)
    requires span > 0 && 0 < begin <= end
    ensures (end - begin + 1) % span == 0 <==> forall s :: CountsWindow(s, begin, end, span)
  {
    RestOfSuccessor(end - begin, span);
    CountMarks(begin, end, span);
    var last := end + span - 1 - (end - begin) % span;
    if last == end {
      forall s ensures CountsWindow(s, begin, end, span) {
        if Ordered(s) {
          CountedUpTo(s, begin, end, span, last);
        }
      }
    } else {
      var s := LateSample(begin, end, last);
      CountedUpTo(s, begin, end, span, last);
      assert !CountsWindow(s, begin, end, span);
    }
  }

  /** A sample just after the window, but before `last`, is counted by the longer window only. */
  lemma LateSample(begin: int, end: int, last: int) returns (s: seq<Sample>)
    requires 0 < begin <= end < last
    ensures Ordered(s) && Count(Window(s, begin, last)) == 1 && Count(Window(s, begin, end)) == 0
  {
    s := [Sample(end + 1, 1, 0)];
    assert LowerBound(s[1..], begin) == LowerBound([], begin) == 0;
    assert LowerBound(s, begin) == 0 && UpperBound(s, end) == 0;
    assert UpperBound(s, last) == LowerBound(s[1..], last + 1) + 1 == 1;
    assert Window(s, begin, last) == s && Window(s, begin, end) == [];
    assert s[..0] == [];
    assert Count(s) == 1;
  }

  lemma RestOfSuccessor(a: int, n: int)
    requires n > 0 && a >= 0
    ensures (a + 1) % n == 0 <==> a % n == n - 1
  {
    var q, r := a / n, a % n;
    assert a == q * n + r;
    if r == n - 1 {
      Distribute(n, q, 1);
      RestUnique(a + 1, n, q + 1, 0);
    } else {
      RestUnique(a + 1, n, q, r + 1);
    }
  }

  lemma RestUnique(a: int, n: int, q: int, r: int)
    requires n > 0 && a == q * n + r && 0 <= r < n
    ensures a % n == r
  {
    var k := a / n;
    assert a == k * n + a % n;
    if k > q {
      MulMono(q + 1, k, n);
    } else if k < q {
      MulMono(k + 1, q, n);
    }
  }

  /** Bucket k, if it holds a valid sample, has its entry. */
  ghost predicate HourKept(hours: map<int, StatV>, s: seq<Sample>, begin: int, span: int, k: nat)
    requires Ordered(s) && span > 0
  {
    AnyValid(Bucket(s, begin, span, k)) ==>
      Mark(begin, span, k) in hours && hours[Mark(begin, span, k)] == StatOf(Bucket(s, begin, span, k))
  }

  /** The entry at time t belongs to bucket k, which holds a valid sample. */
  ghost predicate HourFrom(t: int, s: seq<Sample>, begin: int, span: int, k: nat)
    requires Ordered(s) && span > 0
  {
    t == Mark(begin, span, k) && AnyValid(Bucket(s, begin, span, k))
  }

  ghost predicate HoursUpTo(hours: map<int, StatV>, s: seq<Sample>, begin: int, span: int, n: nat)
    requires Ordered(s) && span > 0
  {
    && (forall k: nat :: k < n ==> HourKept(hours, s, begin, span, k))
    && (forall t :: t in hours ==> exists k: nat :: k < n && HourFrom(t, s, begin, span, k))
  }

  /** DoStat_hour_lst: an entry for every bucket that holds a valid sample, and for no other. */
  method DoStatHourLst(begin: int, end: int, s: seq<Sample>, spanHour: int) returns (hours: map<int, StatV>)
    requires Ordered(s) && spanHour > 0
    ensures HoursUpTo(hours, s, begin, spanHour * 3600, BucketCount(begin, end, spanHour * 3600))
  {
    var span := spanHour * 60 * 60;
    hours := map[];
    var cur := begin;
    ghost var k: nat := 0;
    while cur <= end
      invariant cur == Mark(begin, span, k)
      invariant k <= BucketCount(begin, end, span)
      invariant HoursUpTo(hours, s, begin, span, k)
      decreases end - cur
    {
      var stat := new Stat();
      GetOneStatForSpecTime(cur, cur + span - 1, s, stat);
      ghost var before := hours;
      if stat.valid {
        hours := hours[cur := stat.View()];
      }
      AddHour(before, hours, s, begin, span, k, stat.View());
      CountIsFirstPast(begin, end, span, k);
      cur := cur + span;
      k := k + 1;
    }
    CountIsFirstPast(begin, end, span, k);
  }

  lemma ValidExactly(s: seq<Sample>)
    requires PositiveTimes(s)
    ensures StatOf(s).valid <==> AnyValid(s)
  {
    OnePass(s);
  }

  lemma AddHour(before: map<int, StatV>, after: map<int, StatV>, s: seq<Sample>, begin: int, span: int, k: nat,
                v: StatV)
    requires Ordered(s) && span > 0 && HoursUpTo(before, s, begin, span, k)
    requires v == StatOf(Bucket(s, begin, span, k))
    requires after == if v.valid then before[Mark(begin, span, k) := v] else before
    ensures HoursUpTo(after, s, begin, span, k + 1)
  {
    ValidExactly(Bucket(s, begin, span, k));
    forall j: nat | j < k + 1 ensures HourKept(after, s, begin, span, j) {
      if j < k {
        assert HourKept(before, s, begin, span, j);
        MarkMono(begin, span, j, k);
      }
    }
    forall t | t in after
      ensures exists j: nat :: j < k + 1 && HourFrom(t, s, begin, span, j)
    {
      HourOrigin(before, after, s, begin, span, k, v, t);
    }
  }

  lemma HourOrigin(before: map<int, StatV>, after: map<int, StatV>, s: seq<Sample>, begin: int, span: int, k: nat,
                   v: StatV, t: int)
    requires Ordered(s) && span > 0 && HoursUpTo(before, s, begin, span, k)
    requires v.valid ==> AnyValid(Bucket(s, begin, span, k))
    requires after == if v.valid then before[Mark(begin, span, k) := v] else before
    requires t in after
    ensures exists j: nat :: j < k + 1 && HourFrom(t, s, begin, span, j)
  {
    if t in before {
      var j: nat :| j < k && HourFrom(t, s, begin, span, j);
      assert j < k + 1 && HourFrom(t, s, begin, span, j);
    } else {
      assert HourFrom(t, s, begin, span, k);
    }
  }

  /** Mark k is within the window exactly when k is below the count. */
  lemma CountIsFirstPast(begin: int, end: int, span: int, k: nat)
    requires span > 0
    ensures k < BucketCount(begin, end, span) <==> Mark(begin, span, k) <= end
  {
    var n := BucketCount(begin, end, span);
    CountMarks(begin, end, span);
    if k < n {
      MarkMono(begin, span, k, n - 1);
    } else {
      MarkMono(begin, span, n, k);
    }
  }
}
