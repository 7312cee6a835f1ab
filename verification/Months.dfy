/** Rolling day statistics up into months, and months into a query
    (gsiot/src/DataStoreMgr.cpp 1142-1180, 2246-2272, 2886-2907). */
module Months {
  import opened Stats
  import opened Lookup
  import opened DayRecord
  import opened RetimedTimes

  datatype DayKey = DayKey(obj: int, year: int, month: int, day: int)
  datatype MonthKey = MonthKey(obj: int, year: int, month: int)

  datatype KeyedDay = KeyedDay(key: DayKey, stat: StatV)

  function MonthOf(k: DayKey): MonthKey {
    MonthKey(k.obj, k.year, k.month)
  }

  class MonthRec {
    const stat: Stat
    var tempSum: int

    constructor ()
      ensures fresh(stat) && stat.View() == EMPTY && tempSum == 0
    {
      stat := new Stat();
      tempSum := 0;
    }
  }

  /** The day is one of the same object, year and month. */
  predicate InMonth(d: DayKey, k: MonthKey) {
    d.obj == k.obj && d.year == k.year && d.month == k.month
  }

  /** The statistics of the days that belong to month k, in order. */
  function RowsOf(days: seq<KeyedDay>, k: MonthKey): seq<StatV> {
    if days == [] then []
    else
      var d := days[|days| - 1];
      RowsOf(days[..|days| - 1], k) + if InMonth(d.key, k) then [d.stat] else []
  }

  /** The raw samples of those days, where raw[i] are the samples of days[i]. */
  function PartsOf(days: seq<KeyedDay>, raw: seq<seq<Sample>>, k: MonthKey): seq<seq<Sample>>
    requires |days| == |raw|
  {
    if days == [] then []
    else
      var n := |days| - 1;
      PartsOf(days[..n], raw[..n], k) + if InMonth(days[n].key, k) then [raw[n]] else []
  }

  ghost predicate HasValidDay(days: seq<KeyedDay>, k: MonthKey) {
    exists i :: 0 <= i < |days| && days[i].stat.valid && InMonth(days[i].key, k)
  }

  /** The positions `at` of days, in order, are exactly those with the object, year and month of k. */
  ghost predicate PicksMonth(days: seq<KeyedDay>, k: MonthKey, at: seq<nat>) {
    && Rising(at, |days|)
    && forall p: nat :: p < |days| ==>
         (p in at <==> days[p].key.obj == k.obj && days[p].key.year == k.year && days[p].key.month == k.month)
  }

  /** The rows of a month are the statistics of its days, each once and in order, and its parts are
      the samples of those days. */
  lemma {:induction false} MonthInOrder(days: seq<KeyedDay>, raw: seq<seq<Sample>>, k: MonthKey)
    returns (at: seq<nat>)
    requires |days| == |raw|
    ensures PicksMonth(days, k, at) && |at| == |RowsOf(days, k)| == |PartsOf(days, raw, k)|
    ensures forall i :: 0 <= i < |at| ==> RowsOf(days, k)[i] == days[at[i]].stat
    ensures forall i :: 0 <= i < |at| ==> PartsOf(days, raw, k)[i] == raw[at[i]]
  {
    at := [];
    if days != [] {
      var n: nat := |days| - 1;
      var p := days[..n];
      at := MonthInOrder(p, raw[..n], k);
      RisingSnoc(at, n);
      assert n !in at && forall i :: 0 <= i < n ==> p[i] == days[i];
      if days[n].key.obj == k.obj && days[n].key.year == k.year && days[n].key.month == k.month {
        at := at + [n];
      }
    }
  }

  // ---------- DoStat_month_all ----------

  /** The records are distinct new objects and hold the fold of their month's days. */
  ghost predicate Folded(months: map<MonthKey, MonthRec>, days: seq<KeyedDay>)
    reads months.Values, set m | m in months.Values :: m.stat
  {
    && (forall k :: k in months <==> HasValidDay(days, k))
    && (forall k :: k in months ==> Holds(months[k], RowsOf(days, k)))
  }

  ghost predicate Holds(m: MonthRec, rows: seq<StatV>)
    reads m, m.stat
  {
    m.stat.View() == MergeFold(rows) && m.tempSum == WeightedSum(rows)
  }

  ghost predicate Averaged(m: MonthRec, rows: seq<StatV>)
    reads m.stat
  {
    m.stat.View() == Merge(rows)
  }

  ghost predicate Distinct(months: map<MonthKey, MonthRec>) {
    forall j, k {:trigger Apart(months, j, k)} :: j in months && k in months && j != k ==> Apart(months, j, k)
  }

  ghost predicate Apart(months: map<MonthKey, MonthRec>, j: MonthKey, k: MonthKey)
    requires j in months && k in months
  {
    months[j] != months[k] && months[j].stat != months[k].stat
  }

  lemma RowsSnoc(days: seq<KeyedDay>, d: KeyedDay, k: MonthKey)
    ensures RowsOf(days + [d], k) == if InMonth(d.key, k) then RowsOf(days, k) + [d.stat] else RowsOf(days, k)
  {
    assert (days + [d])[..|days|] == days;
  }

  lemma FoldRowsSnoc(rows: seq<StatV>, r: StatV)
    ensures MergeFold(rows + [r]) == MergeStep(MergeFold(rows), r)
    ensures WeightedSum(rows + [r]) == WeightedSum(rows) + if r.valid then r.avg * r.num else 0
  {
    assert (rows + [r])[..|rows|] == rows;
  }

  lemma ValidDaySnoc(days: seq<KeyedDay>, d: KeyedDay, k: MonthKey)
    ensures HasValidDay(days + [d], k) <==> HasValidDay(days, k) || (d.stat.valid && InMonth(d.key, k))
  {
    var all := days + [d];
    assert all[|days|] == d;
    assert forall i :: 0 <= i < |days| ==> all[i] == days[i];
  }

  /** A month without a valid day folds to an untouched record. */
  lemma {:induction false} NoValidDay(days: seq<KeyedDay>, k: MonthKey)
    requires !HasValidDay(days, k)
    ensures MergeFold(RowsOf(days, k)) == EMPTY && WeightedSum(RowsOf(days, k)) == 0
  {
    if days != [] {
      var p, d := days[..|days| - 1], days[|days| - 1];
      assert days == p + [d];
      ValidDaySnoc(p, d, k);
      NoValidDay(p, k);
      RowsSnoc(p, d, k);
      FoldRowsSnoc(RowsOf(p, k), d.stat);
    }
  }

  method AddDay(m: MonthRec, d: StatV)
    requires d.valid
    modifies m, m.stat
    ensures m.stat.View() == MergeStep(old(m.stat.View()), d)
    ensures m.tempSum == old(m.tempSum) + d.avg * d.num
  {
    m.tempSum := m.tempSum + d.avg * d.num;
    m.stat.num := m.stat.num + d.num;
    m.stat.AnalyseSub(d, 0, 0);
  }

  /** One step on the folds of every month. */
  lemma FoldedStep(days: seq<KeyedDay>, d: KeyedDay, k: MonthKey)
    ensures HasValidDay(days + [d], k) <==> HasValidDay(days, k) || (d.stat.valid && InMonth(d.key, k))
    ensures !HasValidDay(days, k) ==> MergeFold(RowsOf(days, k)) == EMPTY && WeightedSum(RowsOf(days, k)) == 0
    ensures var mine := d.stat.valid && InMonth(d.key, k);
            && MergeFold(RowsOf(days + [d], k)) ==
                 (if mine then MergeStep(MergeFold(RowsOf(days, k)), d.stat) else MergeFold(RowsOf(days, k)))
            && WeightedSum(RowsOf(days + [d], k)) ==
                 WeightedSum(RowsOf(days, k)) + if mine then d.stat.avg * d.stat.num else 0
  {
    ValidDaySnoc(days, d, k);
    RowsSnoc(days, d, k);
    FoldRowsSnoc(RowsOf(days, k), d.stat);
    if !HasValidDay(days, k) {
      NoValidDay(days, k);
    }
  }

  /** The records with one for the month of this day, which is created when it is missing. */
  method RecordFor(months: map<MonthKey, MonthRec>, d: KeyedDay, ghost before: seq<KeyedDay>)
    returns (after: map<MonthKey, MonthRec>)
    requires d.stat.valid && Distinct(months) && Folded(months, before)
    ensures Distinct(after) && MonthOf(d.key) in after
    ensures forall k :: k in after <==> HasValidDay(before + [d], k)
    ensures forall k :: k in after ==> Holds(after[k], RowsOf(before, k))
    ensures forall k :: k in after ==>
              (k in months && after[k] == months[k]) || (fresh(after[k]) && fresh(after[k].stat))
  {
    var key := MonthOf(d.key);
    after := months;
    if key !in months {
      var created := new MonthRec();
      NoValidDay(before, key);
      after := months[key := created];
      forall j, k | j in after && k in after && j != k ensures Apart(after, j, k) {
        assert j != key && k != key ==> Apart(months, j, k);
      }
    }
    forall k ensures k in after <==> HasValidDay(before + [d], k) {
      ValidDaySnoc(before, d, k);
    }
  }

  /** The record of the day's month, with the day added. */
  method AddDayTo(m: MonthRec, d: KeyedDay, ghost before: seq<KeyedDay>)
    requires d.stat.valid && Holds(m, RowsOf(before, MonthOf(d.key)))
    modifies m, m.stat
    ensures Holds(m, RowsOf(before + [d], MonthOf(d.key)))
  {
    RowsSnoc(before, d, MonthOf(d.key));
    FoldRowsSnoc(RowsOf(before, MonthOf(d.key)), d.stat);
    AddDay(m, d.stat);
  }

  /** One valid day enters the record of its month. */
  method EnterDay(months: map<MonthKey, MonthRec>, d: KeyedDay, ghost before: seq<KeyedDay>)
    returns (after: map<MonthKey, MonthRec>)
    requires d.stat.valid && Distinct(months) && Folded(months, before)
    modifies months.Values, set m | m in months.Values :: m.stat
    ensures Distinct(after) && Folded(after, before + [d])
    ensures forall k :: k in after ==>
              (k in months && after[k] == months[k]) || (fresh(after[k]) && fresh(after[k].stat))
  {
    var key := MonthOf(d.key);
    after := RecordFor(months, d, before);
    AddDayTo(after[key], d, before);
    forall k | k in after ensures Holds(after[k], RowsOf(before + [d], k)) {
      if k != key {
        assert Apart(after, k, key);
        RowsSnoc(before, d, k);
      }
    }
  }

  /** The final loop: the average of every month, from its accumulated sum. */
  method SetAverages(months: map<MonthKey, MonthRec>, ghost days: seq<KeyedDay>)
    requires Distinct(months) && Folded(months, days)
    modifies set m | m in months.Values :: m.stat
    ensures forall k :: k in months ==> Averaged(months[k], RowsOf(days, k))
  {
    var todo := months.Keys;
    while todo != {}
      invariant todo <= months.Keys
      invariant forall k :: k in months ==> Settled(months[k], RowsOf(days, k), k !in todo)
      decreases |todo|
    {
      var k :| k in todo;
      SetAverage(months[k], RowsOf(days, k));
      todo := todo - {k};
      forall j | j in months ensures Settled(months[j], RowsOf(days, j), j !in todo) {
        assert j != k ==> Apart(months, j, k);
      }
    }
  }

  /** A record before and after its average is set. */
  ghost predicate Settled(m: MonthRec, rows: seq<StatV>, done: bool)
    reads m, m.stat
  {
    if done then Averaged(m, rows) else Holds(m, rows)
  }

  method SetAverage(m: MonthRec, ghost rows: seq<StatV>)
    requires Holds(m, rows)
    modifies m.stat
    ensures Averaged(m, rows)
  {
    m.stat.CalcAvg(m.tempSum);
  }

  /** DoStat_month_all: a record for exactly the months with a valid day, each the merge of all
      its days. */
  method DoStatMonthAll(days: seq<KeyedDay>) returns (months: map<MonthKey, MonthRec>)
    ensures forall k :: k in months <==>
              exists i :: 0 <= i < |days| && days[i].stat.valid
                          && days[i].key.obj == k.obj && days[i].key.year == k.year && days[i].key.month == k.month
    ensures forall k :: k in months ==> fresh(months[k]) && fresh(months[k].stat)
    ensures forall k :: k in months ==> Averaged(months[k], RowsOf(days, k))
    ensures forall k :: k in months ==> MergesMonth(months[k], days, k)
    ensures Distinct(months)
  {
    months := map[];
    for i := 0 to |days|
      invariant forall k :: k in months ==> fresh(months[k]) && fresh(months[k].stat)
      invariant Distinct(months) && Folded(months, days[..i])
    {
      assert days[..i + 1] == days[..i] + [days[i]];
      if days[i].stat.valid {
        months := EnterDay(months, days[i], days[..i]);
      } else {
        forall k
          ensures k in months <==> HasValidDay(days[..i + 1], k)
          ensures k in months ==> Holds(months[k], RowsOf(days[..i + 1], k))
        {
          FoldedStep(days[..i], days[i], k);
        }
      }
    }
    assert days[..|days|] == days;
    SetAverages(months, days);
    forall k | k in months ensures MergesMonth(months[k], days, k) {
      var at := MonthInOrder(days, seq(|days|, _ => []), k);
      assert StatsAt(days, at) == RowsOf(days, k);
    }
  }

  /** The statistics of the days at these positions. */
  function StatsAt(days: seq<KeyedDay>, at: seq<nat>): seq<StatV>
    requires forall i :: 0 <= i < |at| ==> at[i] < |days|
  {
    seq(|at|, i requires 0 <= i < |at| => days[at[i]].stat)
  }

  /** The record is the merge of exactly the days with the object, year and month of k, in order. */
  ghost predicate MergesMonth(m: MonthRec, days: seq<KeyedDay>, k: MonthKey)
    reads m.stat
  {
    exists at :: PicksMonth(days, k, at) && m.stat.View() == Merge(StatsAt(days, at))
  }

  function SamplesAt(raw: seq<seq<Sample>>, at: seq<nat>): seq<seq<Sample>>
    requires forall i :: 0 <= i < |at| ==> at[i] < |raw|
  {
    seq(|at|, i requires 0 <= i < |at| => raw[at[i]])
  }

  /** v summarises the samples of exactly the days with the object, year and month of k, in order. */
  ghost predicate SummarisesMonth(days: seq<KeyedDay>, raw: seq<seq<Sample>>, k: MonthKey, v: StatV, levels: nat)
    requires |days| == |raw|
  {
    exists at :: PicksMonth(days, k, at) && Summary(Flat(SamplesAt(raw, at)), v, levels)
  }

  lemma MonthIsPicked(days: seq<KeyedDay>, raw: seq<seq<Sample>>, k: MonthKey)
    requires |days| == |raw|
    ensures exists at :: PicksMonth(days, k, at) && PartsOf(days, raw, k) == SamplesAt(raw, at)
  {
    var at := MonthInOrder(days, raw, k);
    assert PartsOf(days, raw, k) == SamplesAt(raw, at);
  }

  /** What a month record says about the raw samples of its days, when every day record says it
      with one level less of truncation. */
  lemma {:induction false} MonthSummarises(days: seq<KeyedDay>, raw: seq<seq<Sample>>, k: MonthKey)
    requires |days| == |raw| && forall i :: 0 <= i < |days| ==> Summary(raw[i], days[i].stat, 1)
    ensures Summary(Flat(PartsOf(days, raw, k)), Merge(RowsOf(days, k)), 2)
    ensures SummarisesMonth(days, raw, k, Merge(RowsOf(days, k)), 2)
  {
    MonthIsPicked(days, raw, k);
    PartsSummarise(days, raw, k);
    MergeSummary(PartsOf(days, raw, k), RowsOf(days, k), 1);
  }

  lemma {:induction false} PartsSummarise(days: seq<KeyedDay>, raw: seq<seq<Sample>>, k: MonthKey)
    requires |days| == |raw| && forall i :: 0 <= i < |days| ==> Summary(raw[i], days[i].stat, 1)
    ensures RowsSummarise(PartsOf(days, raw, k), RowsOf(days, k), 1)
  {
    if days != [] {
      var n := |days| - 1;
      forall i | 0 <= i < n ensures Summary(raw[..n][i], days[..n][i].stat, 1) {
        assert Summary(raw[i], days[i].stat, 1);
      }
      PartsSummarise(days[..n], raw[..n], k);
    }
  }

  /** Re-timing keeps everything a day record says about its samples except the attaining times. */
  lemma RetimingKeepsSummary(s: seq<Sample>, base: StatV, v: StatV, dayBegin: int, now: int, n: nat)
    requires dayBegin > 0 && Summary(s, base, 1) && RetimedStat(base, v, s, dayBegin, now, n)
    ensures Summary(s, v, 1) && v.maxDt <= base.maxDt && v.minDt <= base.minDt
  {
    HitsPositive(s, dayBegin, now, v.max, n);
    HitsPositive(s, dayBegin, now, v.min, n);
  }

  // ---------- from re-timed day records to a query ----------

  /** A stored day statistic of the samples src, re-timed on its own day at its own recording time. */
  ghost predicate IsRecordOf(row: StatV, src: seq<Sample>) {
    Ordered(src) && exists dayBegin, now :: dayBegin > 0 && RetimedStat(StatOf(src), row, src, dayBegin, now, SLOTS)
  }

  lemma RecordSummarises(row: StatV, src: seq<Sample>)
    requires IsRecordOf(row, src)
    ensures Summary(src, row, 1) && NearTimes(src, row)
  {
    var dayBegin, now :| dayBegin > 0 && RetimedStat(StatOf(src), row, src, dayBegin, now, SLOTS);
    OnePass(src);
    RetimingKeepsSummary(src, StatOf(src), row, dayBegin, now, SLOTS);
    RetimedDayIsNear(src, row, dayBegin, now, SLOTS);
  }

  ghost predicate AllRecorded(days: seq<KeyedDay>, raw: seq<seq<Sample>>) {
    |days| == |raw| && forall i :: 0 <= i < |days| ==> IsRecordOf(days[i].stat, raw[i])
  }

  lemma {:induction false} PartsNear(days: seq<KeyedDay>, raw: seq<seq<Sample>>, k: MonthKey)
    requires |days| == |raw| && forall i :: 0 <= i < |days| ==> NearTimes(raw[i], days[i].stat)
    ensures RowsNear(PartsOf(days, raw, k), RowsOf(days, k))
  {
    if days != [] {
      var n := |days| - 1;
      forall i | 0 <= i < n ensures NearTimes(raw[..n][i], days[..n][i].stat) {
        assert NearTimes(raw[i], days[i].stat);
      }
      PartsNear(days[..n], raw[..n], k);
    }
  }

  /** A month record merged from stored day records: flag, extremes and count of all raw samples of
      its days, an average less than 2 off, and times at most ten minutes before the first samples
      that attain the extremes. */
  lemma {:induction false} MonthOfDays(days: seq<KeyedDay>, raw: seq<seq<Sample>>, k: MonthKey)
    requires AllRecorded(days, raw)
    ensures var s, v := Flat(PartsOf(days, raw, k)), Merge(RowsOf(days, k));
            Summary(s, v, 2) && NearTimes(s, v)
    ensures exists at :: PicksMonth(days, k, at) && PartsOf(days, raw, k) == SamplesAt(raw, at)
  {
    MonthIsPicked(days, raw, k);
    forall i | 0 <= i < |days| ensures Summary(raw[i], days[i].stat, 1) && NearTimes(raw[i], days[i].stat) {
      RecordSummarises(days[i].stat, raw[i]);
    }
    MonthSummarises(days, raw, k);
    PartsSummarise(days, raw, k);
    PartsNear(days, raw, k);
    MergeNearTimes(PartsOf(days, raw, k), RowsOf(days, k), 1);
  }

  /** The records of several months, and the raw samples below them. */
  function MonthRows(days: seq<KeyedDay>, keys: seq<MonthKey>): (rows: seq<StatV>)
    ensures |rows| == |keys| && forall i :: 0 <= i < |keys| ==> rows[i] == Merge(RowsOf(days, keys[i]))
  {
    seq(|keys|, i requires 0 <= i < |keys| => Merge(RowsOf(days, keys[i])))
  }

  function MonthSamples(days: seq<KeyedDay>, raw: seq<seq<Sample>>, keys: seq<MonthKey>): (parts: seq<seq<Sample>>)
    requires |days| == |raw|
    ensures |parts| == |keys| && forall i :: 0 <= i < |keys| ==> parts[i] == Flat(PartsOf(days, raw, keys[i]))
  {
    seq(|keys|, i requires 0 <= i < |keys| => Flat(PartsOf(days, raw, keys[i])))
  }

  /** A query over months of stored day records: flag, extremes and count of all raw samples below
      it, an average less than 3 off, and the same bound on the times. */
  lemma QueryOverMonths(days: seq<KeyedDay>, raw: seq<seq<Sample>>, keys: seq<MonthKey>)
    requires AllRecorded(days, raw)
    ensures var s, q := Flat(MonthSamples(days, raw, keys)), Merge(MonthRows(days, keys));
            Summary(s, q, 3) && NearTimes(s, q)
  {
    var parts, rows := MonthSamples(days, raw, keys), MonthRows(days, keys);
    forall i | 0 <= i < |keys| ensures Summary(parts[i], rows[i], 2) && NearTimes(parts[i], rows[i]) {
      MonthOfDays(days, raw, keys[i]);
    }
    MergeSummary(parts, rows, 2);
    MergeNearTimes(parts, rows, 2);
  }

  // ---------- the query up to now, from ranged day records ----------

  /** A day record of samples s made for a query range: extremes of the samples in range, count of
      all of them. */
  ghost predicate RangedRow(s: seq<Sample>, row: StatV, begin: int, end: int) {
    Extremes(InRange(s, begin, end), row) && row.num == Count(s)
  }

  /** A ranged day statistic, re-timed, is such a record. */
  lemma RetimedRangedRow(s: seq<Sample>, v: StatV, begin: int, end: int, dayBegin: int, now: int, n: nat)
    requires PositiveTimes(s) && dayBegin > 0
    requires RetimedStat(WithAvg(Fold(s, begin, end), Sum(s)), v, s, dayBegin, now, n)
    ensures RangedRow(s, v, begin, end) && ExtremesWithin(s, v, begin, end)
  {
    RangedDay(s, begin, end);
    HitsPositive(s, dayBegin, now, v.max, n);
    HitsPositive(s, dayBegin, now, v.min, n);
  }

  ghost predicate RangedRows(days: seq<seq<Sample>>, rows: seq<StatV>, begin: int, end: int) {
    |days| == |rows| && forall i :: 0 <= i < |rows| ==> RangedRow(days[i], rows[i], begin, end)
  }

  /** The samples in range of all days. */
  function AllInRange(days: seq<seq<Sample>>, begin: int, end: int): seq<Sample> {
    if days == [] then [] else AllInRange(days[..|days| - 1], begin, end) + InRange(days[|days| - 1], begin, end)
  }

  /** The valid samples, in range or not, of those days that hold a valid one in range. */
  ghost function CountOfTouchedDays(days: seq<seq<Sample>>, begin: int, end: int): nat {
    if days == [] then 0
    else
      var d := days[|days| - 1];
      CountOfTouchedDays(days[..|days| - 1], begin, end) + if exists i :: Counts(d, i, begin, end) then Count(d) else 0
  }

  /** Merging ranged day records: flag and extremes are those of all samples in range, but the count
      is that of every day they touch. */
  lemma {:induction false} RangedMerge(days: seq<seq<Sample>>, rows: seq<StatV>, begin: int, end: int)
    requires RangedRows(days, rows, begin, end)
    ensures Extremes(AllInRange(days, begin, end), Merge(rows))
    ensures ExtremesWithin(Flat(days), Merge(rows), begin, end)
    ensures Merge(rows).num == CountOfTouchedDays(days, begin, end)
  {
    AllInRangeIs(days, begin, end);
    if rows != [] {
      var n := |rows| - 1;
      RangedMerge(days[..n], rows[..n], begin, end);
      AnyInRange(days[n], begin, end);
      assert RangedRow(days[n], rows[n], begin, end);
      AbsorbExtremes(AllInRange(days[..n], begin, end), InRange(days[n], begin, end), MergeFold(rows[..n]), rows[n]);
    }
    ExtremesReadOff(Flat(days), Merge(rows), begin, end);
  }

  lemma {:induction false} AllInRangeIs(days: seq<seq<Sample>>, begin: int, end: int)
    ensures AllInRange(days, begin, end) == InRange(Flat(days), begin, end)
  {
    if days != [] {
      AllInRangeIs(days[..|days| - 1], begin, end);
      InRangeConcat(Flat(days[..|days| - 1]), days[|days| - 1], begin, end);
    }
  }

  ghost predicate WhollyInside(s: seq<Sample>, begin: int, end: int) {
    (exists i :: Counts(s, i, begin, end)) ==> AllInside(s, begin, end)
  }

  ghost predicate AllWhollyInside(days: seq<seq<Sample>>, begin: int, end: int) {
    forall i :: 0 <= i < |days| ==> WhollyInside(days[i], begin, end)
  }

  lemma WhollyInsideSnoc(days: seq<seq<Sample>>, begin: int, end: int)
    requires days != []
    ensures AllWhollyInside(days, begin, end) <==>
            AllWhollyInside(days[..|days| - 1], begin, end) && WhollyInside(days[|days| - 1], begin, end)
  {
    assert forall i :: 0 <= i < |days| - 1 ==> days[..|days| - 1][i] == days[i];
  }

  /** So the count is that of the samples in range exactly when every day that holds a valid sample
      in range holds no valid one out of range. */
  lemma {:induction false} RangedMergeCountAgrees(days: seq<seq<Sample>>, rows: seq<StatV>, begin: int, end: int)
    requires RangedRows(days, rows, begin, end)
    ensures Count(AllInRange(days, begin, end)) <= Merge(rows).num
    ensures Merge(rows).num == Count(AllInRange(days, begin, end))
       <==> AllWhollyInside(days, begin, end)
  {
    RangedMerge(days, rows, begin, end);
    if rows != [] {
      var n := |rows| - 1;
      var r := InRange(days[n], begin, end);
      RangedMergeCountAgrees(days[..n], rows[..n], begin, end);
      RangedMerge(days[..n], rows[..n], begin, end);
      SumsOfConcat(AllInRange(days[..n], begin, end), r);
      RangedCount(days[n], begin, end);
      CountValid(r);
      AnyInRange(days[n], begin, end);
      WhollyInsideSnoc(days, begin, end);
    }
  }

  // ---------- Stat_mapRec_stat_month_To_QueryStat ----------

  /** Merging stored months into a fresh query record. */
  method MonthsToQuery(months: seq<StatV>, stat: Stat) returns (sum: int)
    requires stat.View() == EMPTY
    modifies stat
    ensures stat.View() == Merge(months) && sum == WeightedSum(months)
  {
    sum := 0;
    for i := 0 to |months|
      invariant stat.View() == MergeFold(months[..i]) && sum == WeightedSum(months[..i])
    {
      assert months[..i + 1] == months[..i] + [months[i]];
      FoldRowsSnoc(months[..i], months[i]);
      if months[i].valid {
        sum := sum + months[i].avg * months[i].num;
        stat.num := stat.num + months[i].num;
        stat.AnalyseSub(months[i], 0, 0);
      }
    }
    assert months[..|months|] == months;
    stat.CalcAvg(sum);
  }
}
