/** The day record (gsiot/src/DataStoreMgr.cpp 952-1038, 1971-1986): one pass over a day's raw
    samples, 48 half-hour slots with two 24-bit validity masks, the re-timing of the extremes,
    and the reading back of the slots. */
module DayRecord {
  import opened Stats
  import opened Lookup

  const SLOTS := 48
  const HALF_HOUR := 30 * 60

  // ---------- std::bitset<24> ----------

  function ToUlong(bits: seq<bool>): nat {
    if bits == [] then 0 else (if bits[0] then 1 else 0) + 2 * ToUlong(bits[1..])
  }

  predicate TestBit(mask: nat, i: nat) {
    if i == 0 then mask % 2 == 1 else TestBit(mask / 2, i - 1)
  }

  function Pow2(n: nat): (r: nat)
    ensures r > 0
  {
    if n == 0 then 1 else 2 * Pow2(n - 1)
  }

  /** A mask read back bit by bit gives the bits it was made of, and fits their number. */
  lemma {:induction false} MaskRoundTrip(bits: seq<bool>, i: nat)
    requires i < |bits|
    ensures TestBit(ToUlong(bits), i) == bits[i]
    ensures ToUlong(bits) / Pow2(i) % 2 == 1 <==> bits[i]
    ensures ToUlong(bits) < Pow2(|bits|)
  {
    var rest := ToUlong(bits[1..]);
    if |bits| > 1 {
      MaskRoundTrip(bits[1..], if i == 0 then 0 else i - 1);
    }
    assert ToUlong(bits) / 2 == rest;
    if i > 0 {
      DivDiv(ToUlong(bits), Pow2(i - 1));
    }
  }

  lemma DivDiv(a: nat, n: nat)
    requires n > 0
    ensures a / (2 * n) == a / 2 / n
  {
    var q, r := a / 2 / n, a / 2 % n;
    assert a == 2 * (q * n + r) + a % 2;
    DivIs(a, 2 * n, q, 2 * r + a % 2);
  }

  lemma DivIs(a: nat, n: nat, q: nat, r: nat)
    requires r < n && a == q * n + r
    ensures a / n == q
  {
    var p, s := a / n, a % n;
    assert a == p * n + s;
    if p < q {
      MulMono(p + 1, q, n);
    } else if q < p {
      MulMono(q + 1, p, n);
    }
  }

  // ---------- the slots of a day ----------

  function SlotTime(dayBegin: int, i: int): int {
    dayBegin + i * HALF_HOUR
  }

  /** The sample that stands for a slot: none for a slot that lies in the future. */
  function Choice(src: seq<Sample>, dayBegin: int, now: int, i: int): Sample {
    var t := SlotTime(dayBegin, i);
    if t > now then NO_SAMPLE else GetValueForSpecTime(t, src, VALID_RANGE_PREV, VALID_RANGE_NEXT).1
  }

  ghost predicate Attains(src: seq<Sample>, dayBegin: int, now: int, i: nat, x: int) {
    Choice(src, dayBegin, now, i).Valid() && Choice(src, dayBegin, now, i).value == x
  }

  /** The times of those of the first n slots whose chosen sample is valid and holds x. */
  ghost function Hits(src: seq<Sample>, dayBegin: int, now: int, x: int, n: nat): set<int> {
    set j: nat | j < n && Attains(src, dayBegin, now, j, x) :: dayBegin + j * 1800
  }

  /** dt is the earliest of dt0 and the times in hits. */
  ghost predicate EarliestOf(dt: int, dt0: int, hits: set<int>) {
    dt <= dt0 && (dt == dt0 || dt in hits) && forall h :: h in hits ==> dt <= h
  }

  /** v is base with its two times moved to the earliest slots that show the same extremes. */
  ghost predicate RetimedStat(base: StatV, v: StatV, src: seq<Sample>, dayBegin: int, now: int, n: nat) {
    && v == base.(maxDt := v.maxDt, minDt := v.minDt)
    && (if base.maxDt == 0 then v.maxDt == 0 else EarliestOf(v.maxDt, base.maxDt, Hits(src, dayBegin, now, v.max, n)))
    && (if base.minDt == 0 then v.minDt == 0 else EarliestOf(v.minDt, base.minDt, Hits(src, dayBegin, now, v.min, n)))
  }

  lemma HitsStep(src: seq<Sample>, dayBegin: int, now: int, x: int, n: nat)
    ensures Hits(src, dayBegin, now, x, n + 1) ==
            Hits(src, dayBegin, now, x, n) + if Attains(src, dayBegin, now, n, x) then {SlotTime(dayBegin, n)} else {}
  {
  }

  /** What one slot does to the two times: an equal value at an earlier time takes the time over. */
  function Retime(v: StatV, cur: int, chosen: Sample): StatV {
    if chosen.time == 0 || !chosen.Valid() then v
    else v.(maxDt := if v.maxDt != 0 && chosen.value == v.max && cur < v.maxDt then cur else v.maxDt,
            minDt := if v.minDt != 0 && chosen.value == v.min && cur < v.minDt then cur else v.minDt)
  }

  lemma RetimeStep(base: StatV, v: StatV, src: seq<Sample>, dayBegin: int, now: int, n: nat)
    requires RetimedStat(base, v, src, dayBegin, now, n)
    requires dayBegin > 0 && base.maxDt >= 0 && base.minDt >= 0
    requires var c := Choice(src, dayBegin, now, n); c.Valid() ==> c.time != 0
    ensures var later := Retime(v, SlotTime(dayBegin, n), Choice(src, dayBegin, now, n));
            RetimedStat(base, later, src, dayBegin, now, n + 1)
  {
    if base.maxDt != 0 {
      EarliestStep(v.maxDt, base.maxDt, src, dayBegin, now, v.max, n);
    }
    if base.minDt != 0 {
      EarliestStep(v.minDt, base.minDt, src, dayBegin, now, v.min, n);
    }
  }

  /** One more slot, for one of the two times. */
  lemma EarliestStep(dt: int, dt0: int, src: seq<Sample>, dayBegin: int, now: int, x: int, n: nat)
    requires EarliestOf(dt, dt0, Hits(src, dayBegin, now, x, n)) && dayBegin > 0 && dt0 > 0
    ensures dt > 0
    ensures var t := SlotTime(dayBegin, n);
            EarliestOf(if Attains(src, dayBegin, now, n, x) && t < dt then t else dt, dt0,
                       Hits(src, dayBegin, now, x, n + 1))
  {
    HitsStep(src, dayBegin, now, x, n);
    HitsPositive(src, dayBegin, now, x, n);
  }

  lemma HitsPositive(src: seq<Sample>, dayBegin: int, now: int, x: int, n: nat)
    requires dayBegin > 0
    ensures forall h :: h in Hits(src, dayBegin, now, x, n) ==> h > 0
  {
  }

  // ---------- one pass, possibly with a query range ----------

  /** The samples that take part in the extremes when a range is given. */
  function InRange(s: seq<Sample>, begin: int, end: int): seq<Sample> {
    if s == [] then []
    else
      var r, x := InRange(s[..|s| - 1], begin, end), s[|s| - 1];
      if Excluded(x.time, begin, end) then r else r + [x]
  }

  /** A sample in range is folded as without a range; one out of range is only counted. */
  lemma RangedStep(v: StatV, x: Sample, begin: int, end: int, n: int)
    ensures FoldStep(v.(num := n), x, begin, end) ==
            (if Excluded(x.time, begin, end) then v else FoldStep(v, x, 0, 0)).(num := n + if x.Valid() then 1 else 0)
  {
  }

  lemma FoldSnoc(r: seq<Sample>, x: Sample)
    ensures Fold(r + [x], 0, 0) == FoldStep(Fold(r, 0, 0), x, 0, 0)
  {
    assert (r + [x])[..|r|] == r;
  }

  /** The day's statistic before its average is set: extremes over the samples in range, but a
      count over all of them. */
  lemma {:induction false} RangedFold(s: seq<Sample>, begin: int, end: int)
    ensures Fold(s, begin, end) == Fold(InRange(s, begin, end), 0, 0).(num := Count(s))
  {
    if s != [] {
      var p, x := s[..|s| - 1], s[|s| - 1];
      var r := InRange(p, begin, end);
      RangedFold(p, begin, end);
      RangedStep(Fold(r, 0, 0), x, begin, end, Count(p));
      FoldSnoc(r, x);
    }
  }

  lemma {:induction false} InRangeMembers(s: seq<Sample>, begin: int, end: int, x: Sample)
    ensures x in InRange(s, begin, end) <==> x in s && (begin == 0 || end == 0 || begin <= x.time <= end)
    ensures PositiveTimes(s) ==> PositiveTimes(InRange(s, begin, end))
  {
    if s != [] {
      InRangeMembers(s[..|s| - 1], begin, end, x);
      assert s == s[..|s| - 1] + [s[|s| - 1]];
    }
  }

  /** The positions `at` of s, in order, are exactly those whose sample takes part. */
  ghost predicate Picks(s: seq<Sample>, begin: int, end: int, at: seq<nat>) {
    && Rising(at, |s|)
    && forall p: nat :: p < |s| ==> (p in at <==> begin == 0 || end == 0 || begin <= s[p].time <= end)
  }

  /** Strictly increasing positions below n. */
  ghost predicate Rising(at: seq<nat>, n: nat) {
    && (forall i :: 0 <= i < |at| ==> at[i] < n)
    && forall i, j :: 0 <= i < j < |at| ==> at[i] < at[j]
  }

  lemma RisingSnoc(at: seq<nat>, n: nat)
    requires Rising(at, n)
    ensures Rising(at, n + 1) && Rising(at + [n], n + 1)
    ensures forall p: nat :: p in at + [n] <==> p in at || p == n
  {
  }

  /** The list taking part is s without the samples out of range, each other one once and in order. */
  lemma {:induction false} InRangeInOrder(s: seq<Sample>, begin: int, end: int) returns (at: seq<nat>)
    ensures Picks(s, begin, end, at) && |at| == |InRange(s, begin, end)|
    ensures forall i :: 0 <= i < |at| ==> InRange(s, begin, end)[i] == s[at[i]]
  {
    at := [];
    if s != [] {
      var n: nat := |s| - 1;
      var p := s[..n];
      at := InRangeInOrder(p, begin, end);
      RisingSnoc(at, n);
      assert n !in at && forall i :: 0 <= i < n ==> p[i] == s[i];
      if begin == 0 || end == 0 || begin <= s[n].time <= end {
        at := at + [n];
      }
    }
  }

  /** The day statistic of a ranged query: its extremes are those of the samples in range, its
      count and average those of all samples of the day. */
  lemma RangedDay(s: seq<Sample>, begin: int, end: int)
    requires PositiveTimes(s)
    ensures var v := WithAvg(Fold(s, begin, end), Sum(s));
            && Extremes(InRange(s, begin, end), v) && FirstTimes(InRange(s, begin, end), v)
            && v.num == Count(s)
            && (v.num > 0 ==> -v.num < v.avg * v.num - Sum(s) < v.num)
    ensures ExtremesWithin(s, WithAvg(Fold(s, begin, end), Sum(s)), begin, end)
  {
    var r, v := InRange(s, begin, end), WithAvg(Fold(s, begin, end), Sum(s));
    RangedFold(s, begin, end);
    InRangeMembers(s, begin, end, NO_SAMPLE);
    FoldExtremes(r);
    if Count(s) > 0 {
      TruncDivBounds(Sum(s), Count(s));
    }
    ExtremesReadOff(s, v, begin, end);
  }

  /** Sample i is valid, and its time is in the range, if there is one. */
  ghost predicate Counts(s: seq<Sample>, i: int, begin: int, end: int) {
    0 <= i < |s| && s[i].flag != 0 && (begin == 0 || end == 0 || begin <= s[i].time <= end)
  }

  /** The extremes, read off the whole list: v shows the greatest and smallest values of the valid
      samples with begin <= time <= end. */
  ghost predicate ExtremesWithin(s: seq<Sample>, v: StatV, begin: int, end: int) {
    && (v.valid <==> exists i :: Counts(s, i, begin, end))
    && (v.valid ==>
          && (forall i :: Counts(s, i, begin, end) ==> v.min <= s[i].value <= v.max)
          && (exists i :: Counts(s, i, begin, end) && s[i].value == v.max)
          && (exists i :: Counts(s, i, begin, end) && s[i].value == v.min))
  }

  lemma ExtremesReadOff(s: seq<Sample>, v: StatV, begin: int, end: int)
    requires Extremes(InRange(s, begin, end), v)
    ensures ExtremesWithin(s, v, begin, end)
  {
    var r := InRange(s, begin, end);
    var at := InRangeInOrder(s, begin, end);
    forall i | Counts(s, i, begin, end) ensures exists k :: 0 <= k < |at| && at[k] == i && r[k] == s[i] {
      assert i in at;
    }
    forall k | 0 <= k < |r| && r[k].Valid() ensures Counts(s, at[k], begin, end) && s[at[k]] == r[k] {
      assert at[k] in at;
    }
    if v.valid {
      var k :| HasValue(r, k, v.max);
      assert Counts(s, at[k], begin, end) && s[at[k]].value == v.max;
      var l :| HasValue(r, l, v.min);
      assert Counts(s, at[l], begin, end) && s[at[l]].value == v.min;
    }
  }

  lemma AnyInRange(s: seq<Sample>, begin: int, end: int)
    ensures AnyValid(InRange(s, begin, end)) <==> exists i :: Counts(s, i, begin, end)
  {
    var r := InRange(s, begin, end);
    var at := InRangeInOrder(s, begin, end);
    if AnyValid(r) {
      var k :| 0 <= k < |r| && r[k].Valid();
      assert at[k] in at && Counts(s, at[k], begin, end);
    }
    if i :| Counts(s, i, begin, end) {
      assert i in at;
      var k :| 0 <= k < |at| && at[k] == i;
      assert r[k].Valid();
    }
  }

  lemma {:induction false} InRangeConcat(a: seq<Sample>, b: seq<Sample>, begin: int, end: int)
    ensures InRange(a + b, begin, end) == InRange(a, begin, end) + InRange(b, begin, end)
  {
    if b == [] {
      assert a + b == a;
    } else {
      assert (a + b)[..|a + b| - 1] == a + b[..|b| - 1];
      InRangeConcat(a, b[..|b| - 1], begin, end);
    }
  }

  ghost predicate AllInside(s: seq<Sample>, begin: int, end: int) {
    forall i :: 0 <= i < |s| && s[i].Valid() ==> begin == 0 || end == 0 || begin <= s[i].time <= end
  }

  lemma AllInsideSnoc(p: seq<Sample>, x: Sample, begin: int, end: int)
    ensures AllInside(p + [x], begin, end) <==>
            AllInside(p, begin, end) && (x.Valid() ==> begin == 0 || end == 0 || begin <= x.time <= end)
  {
    var s := p + [x];
    assert s[|p|] == x;
    assert forall i :: 0 <= i < |p| ==> p[i] == s[i];
  }

  lemma {:induction false} RangedCount(s: seq<Sample>, begin: int, end: int)
    ensures Count(InRange(s, begin, end)) <= Count(s)
    ensures Count(InRange(s, begin, end)) == Count(s) <==> AllInside(s, begin, end)
  {
    if s != [] {
      var p, x := s[..|s| - 1], s[|s| - 1];
      RangedCount(p, begin, end);
      SumsOfConcat(InRange(p, begin, end), [x]);
      assert Count([x]) == if x.Valid() then 1 else 0;
      assert s == p + [x];
      AllInsideSnoc(p, x, begin, end);
    }
  }

  /** The count of a ranged day is that of the samples its extremes come from exactly when no
      valid sample of the day lies outside the range. */
  lemma RangedCountAgrees(s: seq<Sample>, begin: int, end: int)
    ensures Fold(s, begin, end).num == Count(InRange(s, begin, end)) <==> AllInside(s, begin, end)
  {
    RangedFold(s, begin, end);
    RangedCount(s, begin, end);
  }

  // ---------- the record ----------

  /** A finished day record as it is stored and loaded. */
  datatype DayRow = DayRow(dayBegin: int, stat: StatV, validA: nat, validB: nat, v1k: seq<int>) {
    /** The validity the query code reads for slot i. */
    predicate SlotValid(i: nat) {
      if i < 24 then TestBit(validA, i) else TestBit(validB, i - 24)
    }
  }

  /** The bits of the two numbers: the validity of slot i < 24 is bit i of the first, that of a later
      one bit i - 24 of the second. */
  lemma SlotBits(row: DayRow, i: nat)
    requires i < 48
    ensures row.SlotValid(i) <==> (if i < 24 then row.validA / Pow2(i) else row.validB / Pow2(i - 24)) % 2 == 1
  {
    if i < 24 {
      TestBitIs(row.validA, i);
    } else {
      TestBitIs(row.validB, i - 24);
    }
  }

  lemma {:induction false} TestBitIs(mask: nat, i: nat)
    ensures TestBit(mask, i) <==> mask / Pow2(i) % 2 == 1
  {
    if i > 0 {
      DivDiv(mask, Pow2(i - 1));
      TestBitIs(mask / 2, i - 1);
    }
  }

  /** The row reads back, slot by slot, as the samples chosen for the 48 half hours of its day; a
      half hour that was still to come at the time `now` has none. */
  ghost predicate Records(row: DayRow, src: seq<Sample>, now: int) {
    |row.v1k| == 48 && forall i :: 0 <= i < 48 ==> SlotRecords(row, src, now, i)
  }

  ghost predicate SlotRecords(row: DayRow, src: seq<Sample>, now: int, i: nat)
    requires i < |row.v1k|
  {
    var t := row.dayBegin + i * 1800;
    var x := if t > now then Sample(0, 0, 0) else GetValueForSpecTime(t, src, 2100, 600).1;
    row.SlotValid(i) == x.Valid() && row.v1k[i] == x.value
  }

  class DayRec {
    const dayBegin: int
    const src: seq<Sample>
    const stat: Stat
    const v1k: array<int>
    var validA: nat
    var validB: nat

    function Row(): DayRow
      reads this, stat, v1k
    {
      DayRow(dayBegin, stat.View(), validA, validB, v1k[..])
    }

    constructor (dayBegin: int, src: seq<Sample>)
      ensures this.dayBegin == dayBegin && this.src == src && stat.View() == EMPTY
      ensures v1k.Length == SLOTS && fresh(stat) && fresh(v1k)
    {
      this.dayBegin, this.src := dayBegin, src;
      stat := new Stat();
      v1k := new int[SLOTS](_ => 0);
      validA, validB := 0, 0;
    }

    method FoldSource(begin: int, end: int)
      requires stat.View() == EMPTY
      modifies stat
      ensures stat.View() == WithAvg(Fold(src, begin, end), Sum(src))
    {
      var sum, it := 0, 0;
      while it != |src|
        invariant 0 <= it <= |src|
        invariant stat.View() == Fold(src[..it], begin, end)
        invariant sum == Sum(src[..it])
        decreases |src| - it
      {
        assert src[..it + 1][..it] == src[..it];
        if src[it].Valid() {
          sum := sum + src[it].value;
          stat.num := stat.num + 1;
          stat.AnalyseSample(src[it].time, src[it].value, begin, end);
        }
        it := it + 1;
      }
      assert src[..|src|] == src;
      stat.CalcAvg(sum);
    }

    /** DoStat_day_specday_specone at the current time `now`. */
    method DoStatDay(retime: bool, begin: int, end: int, now: int) returns (done: bool)
      requires v1k.Length == SLOTS && stat.View() == EMPTY && dayBegin > 0 && Ordered(src)
      modifies this, stat, v1k
      ensures done == (src != [])
      ensures !done ==> Row() == old(Row())
      ensures done ==> Records(Row(), src, now)
      ensures done ==> var base := WithAvg(Fold(src, begin, end), Sum(src));
                       if retime then RetimedStat(base, stat.View(), src, dayBegin, now, SLOTS) else stat.View() == base
      ensures done ==> ExtremesWithin(src, stat.View(), begin, end) && stat.num == Count(src)
    {
      if src == [] {
        return false;
      }
      FoldSource(begin, end);
      ghost var base := stat.View();
      TimesNotNegative(src, begin, end);
      var cur := dayBegin;
      var bitsA, bitsB := seq(24, _ => false), seq(24, _ => false);
      var i := 0;
      while i < SLOTS
        invariant 0 <= i <= SLOTS && cur == SlotTime(dayBegin, i)
        invariant SlotsRead(v1k[..], bitsA, bitsB, src, dayBegin, now, i)
        invariant if retime then RetimedStat(base, stat.View(), src, dayBegin, now, i) else stat.View() == base
      {
        var chosen := Choice(src, dayBegin, now, i);
        var isValid := chosen.Valid();
        v1k[i] := chosen.value;
        if i < 24 {
          bitsA := bitsA[i := isValid];
        } else {
          bitsB := bitsB[i - 24 := isValid];
        }
        if retime {
          ChosenHasTime(src, dayBegin, now, i);
          RetimeStep(base, stat.View(), src, dayBegin, now, i);
          RetimeSlot(cur, chosen);
        }
        cur := cur + HALF_HOUR;
        i := i + 1;
      }
      validA, validB := ToUlong(bitsA), ToUlong(bitsB);
      SlotsRecorded(Row(), bitsA, bitsB, src, now);
      RangedDay(src, begin, end);
      return true;
    }

    method RetimeSlot(cur: int, chosen: Sample)
      modifies stat
      ensures stat.View() == Retime(old(stat.View()), cur, chosen)
    {
      if chosen.time != 0 && chosen.Valid() {
        if stat.maxDt != 0 {
          if chosen.value == stat.max && cur < stat.maxDt {
            stat.maxDt, stat.max := cur, chosen.value;
          }
        }
        if stat.minDt != 0 {
          if chosen.value == stat.min && cur < stat.minDt {
            stat.minDt, stat.min := cur, chosen.value;
          }
        }
      }
    }
  }

  /** The first n slots are in the value array and the two bit sets. */
  ghost predicate SlotsRead(v: seq<int>, a: seq<bool>, b: seq<bool>, src: seq<Sample>, dayBegin: int, now: int,
                            n: nat) {
    && |v| == SLOTS && |a| == |b| == 24 && n <= SLOTS
    && forall i :: 0 <= i < n ==>
         && v[i] == Choice(src, dayBegin, now, i).value
         && (if i < 24 then a[i] else b[i - 24]) == Choice(src, dayBegin, now, i).Valid()
  }

  lemma SlotsRecorded(row: DayRow, a: seq<bool>, b: seq<bool>, src: seq<Sample>, now: int)
    requires SlotsRead(row.v1k, a, b, src, row.dayBegin, now, SLOTS)
    requires row.validA == ToUlong(a) && row.validB == ToUlong(b)
    ensures Records(row, src, now)
  {
    forall i: nat | i < SLOTS ensures SlotRecords(row, src, now, i) {
      if i < 24 {
        MaskRoundTrip(a, i);
      } else {
        MaskRoundTrip(b, i - 24);
      }
      ChoiceIs(src, row.dayBegin, now, i);
    }
  }

  lemma ChoiceIs(src: seq<Sample>, dayBegin: int, now: int, i: nat)
    ensures var t := dayBegin + i * 1800;
            Choice(src, dayBegin, now, i) ==
              if t > now then Sample(0, 0, 0) else GetValueForSpecTime(t, src, 2100, 600).1
  {
  }

  /** A valid chosen sample comes from the list and so carries a time. */
  lemma ChosenHasTime(src: seq<Sample>, dayBegin: int, now: int, i: nat)
    requires Ordered(src) && dayBegin > 0
    ensures Choice(src, dayBegin, now, i).Valid() ==> Choice(src, dayBegin, now, i).time != 0
  {
  }

  lemma {:induction false} TimesNotNegative(s: seq<Sample>, begin: int, end: int)
    requires PositiveTimes(s)
    ensures Fold(s, begin, end).maxDt >= 0 && Fold(s, begin, end).minDt >= 0
  {
    if s != [] {
      TimesNotNegative(s[..|s| - 1], begin, end);
    }
  }
}
