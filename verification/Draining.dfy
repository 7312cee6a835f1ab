/** The buffer of samples waiting to be stored and its draining in batches
    (gsiot/src/GSIOTClient.cpp 703-716, 4762-4825, gsiot/src/DataStoreMgr.cpp 624-679, 2626-2643), and the
    reduction of an address queue to one address (gsiot/src/AddressManager.cpp 67-87). */
module Draining {
  const BATCH_MAX := 50
  const BUFFER_MAX := 10000

  /** A buffered sample; month is the local month of its time, which names its database. */
  datatype DataSave = DataSave(time: int, month: int, key: int, value: int)

  /** The samples of one month, in order. */
  function Of(m: int, xs: seq<DataSave>): seq<DataSave> {
    if xs == [] then []
    else
      var last := xs[|xs| - 1];
      var front := Of(m, xs[..|xs| - 1]);
      if last.month == m then front + [last] else front
  }

  lemma {:induction false} OfConcat(m: int, xs: seq<DataSave>, ys: seq<DataSave>)
    ensures Of(m, xs + ys) == Of(m, xs) + Of(m, ys)
    decreases |ys|
  {
    if ys == [] {
      assert xs + ys == xs;
    } else {
      var front := ys[..|ys| - 1];
      OfConcat(m, xs, front);
      assert (xs + ys)[..|xs + ys| - 1] == xs + front;
    }
  }

  /** The samples of one month are those samples of the list, each as often as it is there, in order. */
  lemma {:induction false} OfIsTheMonth(m: int, xs: seq<DataSave>, x: DataSave)
    ensures multiset(Of(m, xs))[x] == if x.month == m then multiset(xs)[x] else 0
    ensures Subseq(Of(m, xs), xs)
  {
    if xs != [] {
      var front, last := xs[..|xs| - 1], xs[|xs| - 1];
      OfIsTheMonth(m, front, x);
      assert xs == front + [last];
      var o := Of(m, front);
      assert (o + [last])[..|o|] == o;
    }
  }

  predicate SameMonth(buf: seq<DataSave>, p: nat, i: nat)
    requires p < |buf| && i < |buf|
  {
    buf[i].month == buf[p].month
  }

  lemma {:induction false} OfOneMonth(m: int, xs: seq<DataSave>)
    requires forall i: nat :: i < |xs| ==> SameMonth(xs, 0, i)
    ensures Of(m, xs) == if xs != [] && xs[0].month == m then xs else []
  {
    if xs != [] {
      var front := xs[..|xs| - 1];
      forall i: nat | i < |front| ensures SameMonth(front, 0, i) {
        assert SameMonth(xs, 0, i);
      }
      OfOneMonth(m, front);
      assert SameMonth(xs, 0, |xs| - 1);
      assert xs == xs[..|xs| - 1] + [xs[|xs| - 1]];
    }
  }

  /** Samples p to e of the buffer are a batch: some samples, at most fifty, all of one month, and
      no fewer than the buffer, the month and the limit allow. */
  ghost predicate IsBatch(buf: seq<DataSave>, p: nat, e: nat) {
    && p < e <= |buf| && e - p <= 50
    && (forall i: nat :: p <= i < e ==> SameMonth(buf, p, i))
    && (e == |buf| || e - p == 50 || !SameMonth(buf, p, e))
  }

  ghost predicate BatchAt(buf: seq<DataSave>, cuts: seq<nat>, k: nat)
    requires k + 1 < |cuts|
  {
    IsBatch(buf, cuts[k], cuts[k + 1])
  }

  /** The positions at which a run of pops cuts the buffer. */
  ghost predicate Cuts(buf: seq<DataSave>, cuts: seq<nat>) {
    && |cuts| > 0 && cuts[0] == 0
    && (forall k :: 0 <= k < |cuts| ==> cuts[k] <= |buf|)
    && (forall k: nat :: k + 1 < |cuts| ==> BatchAt(buf, cuts, k))
  }

  /** What the database of month m gains from the first n batches; a batch whose insert fails is
      deleted all the same. */
  ghost function Gained(buf: seq<DataSave>, cuts: seq<nat>, lost: set<nat>, m: int, n: nat): seq<DataSave>
    requires Cuts(buf, cuts) && n < |cuts|
  {
    if n == 0 then []
    else
      var g := Gained(buf, cuts, lost, m, n - 1);
      if Reaches(buf, cuts, m, n - 1) && n - 1 !in lost then g + Batch(buf, cuts, n - 1) else g
  }

  ghost function Batch(buf: seq<DataSave>, cuts: seq<nat>, k: nat): (b: seq<DataSave>)
    requires Cuts(buf, cuts) && k + 1 < |cuts|
    ensures b != []
  {
    assert BatchAt(buf, cuts, k);
    buf[cuts[k]..cuts[k + 1]]
  }

  /** Batch k goes to the database of month m: insertdata takes the month of its first sample. */
  ghost predicate Reaches(buf: seq<DataSave>, cuts: seq<nat>, m: int, k: nat)
    requires Cuts(buf, cuts) && k + 1 < |cuts|
  {
    Batch(buf, cuts, k)[0].month == m
  }

  /** The rows of the database of month m. */
  ghost function RowsOf(rows: map<int, seq<DataSave>>, m: int): seq<DataSave> {
    if m in rows then rows[m] else []
  }

  /** Between the two states of the databases, the first n batches have been inserted. */
  ghost predicate Filled(was: map<int, seq<DataSave>>, rows: map<int, seq<DataSave>>,
                         buf: seq<DataSave>, cuts: seq<nat>, lost: set<nat>, n: nat)
    requires Cuts(buf, cuts) && n < |cuts|
  {
    forall m :: FilledFor(was, rows, buf, cuts, lost, n, m)
  }

  ghost predicate FilledFor(was: map<int, seq<DataSave>>, rows: map<int, seq<DataSave>>,
                            buf: seq<DataSave>, cuts: seq<nat>, lost: set<nat>, n: nat, m: int)
    requires Cuts(buf, cuts) && n < |cuts|
  {
    RowsOf(rows, m) == RowsOf(was, m) + Gained(buf, cuts, lost, m, n)
  }

  /** The batches cut off so far are gone from the buffer and have been inserted. */
  ghost predicate Drained(was: map<int, seq<DataSave>>, rows: map<int, seq<DataSave>>,
                          all: seq<DataSave>, buf: seq<DataSave>, cuts: seq<nat>, lost: set<nat>) {
    && Cuts(all, cuts)
    && buf == all[cuts[|cuts| - 1]..]
    && Filled(was, rows, all, cuts, lost, |cuts| - 1)
  }

  /** The database of the batch's month has taken it whole, if it commits; all else is unchanged. */
  ghost predicate Stored(before: map<int, seq<DataSave>>, rows: map<int, seq<DataSave>>, vec: seq<DataSave>,
                         commits: bool) {
    rows == if vec != [] && commits then before[vec[0].month := RowsOf(before, vec[0].month) + vec] else before
  }

  /** The batch vec has been cut off the front of the buffer. */
  ghost predicate Popped(buf: seq<DataSave>, vec: seq<DataSave>, rest: seq<DataSave>) {
    |vec| <= |buf| && IsBatch(buf, 0, |vec|) && vec == buf[..|vec|] && rest == buf[|vec|..]
  }

  lemma OneMonthOnly(all: seq<DataSave>, vec: seq<DataSave>)
    requires vec <= all && vec != [] && forall i: nat :: i < |vec| ==> SameMonth(all, 0, i)
    ensures forall i :: 0 <= i < |vec| ==> vec[i].month == vec[0].month
  {
    forall i: nat | i < |vec| ensures vec[i].month == vec[0].month {
      assert SameMonth(all, 0, i);
    }
  }

  class GSIOTClient {
    var lstDataSaveBuf: seq<DataSave>
    var rows: map<int, seq<DataSave>>

    constructor ()
      ensures lstDataSaveBuf == [] && rows == map[]
    {
      lstDataSaveBuf, rows := [], map[];
    }

    method Push(x: DataSave) returns (ok: bool)
      modifies this`lstDataSaveBuf
      ensures ok <==> |old(lstDataSaveBuf)| < 10000
      ensures lstDataSaveBuf == old(lstDataSaveBuf) + if ok then [x] else []
    {
      ok := |lstDataSaveBuf| < BUFFER_MAX;
      if ok {
        lstDataSaveBuf := lstDataSaveBuf + [x];
      }
    }

    /** DataSaveBuf_Pop into an empty vector. */
    method DataSaveBufPop() returns (popped: bool, vecDataSave: seq<DataSave>)
      modifies this`lstDataSaveBuf
      ensures popped <==> old(lstDataSaveBuf) != []
      ensures if popped then Popped(old(lstDataSaveBuf), vecDataSave, lstDataSaveBuf) else vecDataSave == []
      ensures popped ==> vecDataSave != [] && |lstDataSaveBuf| < |old(lstDataSaveBuf)|
      ensures popped ==>
        && vecDataSave + lstDataSaveBuf == old(lstDataSaveBuf) && |vecDataSave| <= 50
        && (forall i :: 0 <= i < |vecDataSave| ==> vecDataSave[i].month == vecDataSave[0].month)
        && (lstDataSaveBuf != [] && |vecDataSave| < 50 ==> lstDataSaveBuf[0].month != vecDataSave[0].month)
      ensures !popped ==> lstDataSaveBuf == []
    {
      vecDataSave := [];
      if lstDataSaveBuf == [] {
        return false, vecDataSave;
      }
      ghost var all := lstDataSaveBuf;
      var p := lstDataSaveBuf[0];
      lstDataSaveBuf := lstDataSaveBuf[1..];
      vecDataSave := vecDataSave + [p];
      var curBatchMonth := p.month;
      while lstDataSaveBuf != []
        invariant 1 <= |vecDataSave| < BATCH_MAX && |vecDataSave| <= |all|
        invariant vecDataSave == all[..|vecDataSave|] && lstDataSaveBuf == all[|vecDataSave|..]
        invariant forall i: nat :: i < |vecDataSave| ==> SameMonth(all, 0, i)
        invariant all[0].month == curBatchMonth
        decreases |lstDataSaveBuf|
      {
        p := lstDataSaveBuf[0];
        if curBatchMonth != p.month {
          break;
        }
        lstDataSaveBuf := lstDataSaveBuf[1..];
        vecDataSave := vecDataSave + [p];
        if |vecDataSave| >= BATCH_MAX {
          break;
        }
      }
      popped := true;
      OneMonthOnly(all, vecDataSave);
    }

    /** The database of the first sample's month takes the batch whole, in one transaction, or not
        at all. */
    method InsertData(vecDataSave: seq<DataSave>, commits: bool)
      modifies this`rows
      ensures Stored(old(rows), rows, vecDataSave, commits)
    {
      if vecDataSave == [] {
        return;
      }
      var m := vecDataSave[0].month;
      if commits {
        rows := rows[m := (if m in rows then rows[m] else []) + vecDataSave];
      }
    }

    /** DataSave. lost tells the batches that the database does not take, late after how many
        batches the time budget is found spent. It stops only when the buffer is empty or time is up; each
        batch is gone from the buffer and has reached the database of its month at most once. */
    method DataSave(lost: set<nat>, late: nat) returns (ghost cuts: seq<nat>)
      modifies this`lstDataSaveBuf, this`rows
      ensures Drained(old(rows), rows, old(lstDataSaveBuf), lstDataSaveBuf, cuts, lost)
      ensures |cuts| <= 2 || |cuts| - 2 < late
      ensures |cuts| > 0
      ensures lstDataSaveBuf != [] ==> |cuts| > 1 && |cuts| - 1 >= late
    {
      ghost var all, was := lstDataSaveBuf, rows;
      var batches: nat := 0;
      cuts := [0];
      NoneGained(rows, all, lost);
      while true
        invariant |cuts| == batches + 1 && Drained(was, rows, all, lstDataSaveBuf, cuts, lost)
        invariant batches == 0 || batches < late
        decreases |lstDataSaveBuf|
      {
        ghost var before, rowsBefore, buf := cuts, rows, lstDataSaveBuf;
        var popped, vecDataSave := DataSaveBufPop();
        if vecDataSave == [] {
          break;
        }
        var commits := batches !in lost;
        InsertData(vecDataSave, commits);
        cuts := NextCut(was, rowsBefore, rows, all, before, buf, vecDataSave, lstDataSaveBuf, lost, commits);
        batches := batches + 1;
        if batches >= late {
          break;
        }
      }
    }
  }

  lemma Assoc(a: seq<DataSave>, b: seq<DataSave>, c: seq<DataSave>)
    ensures a + b + c == a + (b + c)
  {
  }

  lemma SplitAt(m: int, xs: seq<DataSave>, k: nat)
    requires k <= |xs|
    ensures Of(m, xs) == Of(m, xs[..k]) + Of(m, xs[k..])
  {
    OfConcat(m, xs[..k], xs[k..]);
    assert xs[..k] + xs[k..] == xs;
  }

  lemma NoneGained(rows: map<int, seq<DataSave>>, buf: seq<DataSave>, lost: set<nat>)
    ensures Drained(rows, rows, buf, buf, [0], lost)
  {
  }

  lemma BatchShift(all: seq<DataSave>, buf: seq<DataSave>, p: nat, n: nat)
    requires p <= |all| && buf == all[p..] && IsBatch(buf, 0, n)
    ensures IsBatch(all, p, p + n)
    ensures buf[..n] == all[p..p + n] && buf[n..] == all[p + n..]
  {
    forall i: nat | p <= i < p + n ensures SameMonth(all, p, i) {
      assert SameMonth(buf, 0, i - p);
    }
  }

  lemma CutNext(all: seq<DataSave>, cuts: seq<nat>, buf: seq<DataSave>, vec: seq<DataSave>) returns (next: seq<nat>)
    requires Cuts(all, cuts) && all[cuts[|cuts| - 1]..] == buf && |vec| <= |buf| && vec == buf[..|vec|]
    requires IsBatch(buf, 0, |vec|)
    ensures next == cuts + [cuts[|cuts| - 1] + |vec|] && Cuts(all, next)
    ensures buf[|vec|..] == all[next[|cuts|]..] && vec == all[next[|cuts| - 1]..next[|cuts|]]
  {
    var p := cuts[|cuts| - 1];
    var e := p + |vec|;
    next := cuts + [e];
    BatchShift(all, buf, p, |vec|);
    forall k: nat | k + 1 < |next| ensures BatchAt(all, next, k) {
      if k + 1 < |cuts| {
        assert BatchAt(all, cuts, k);
      }
    }
  }

  lemma NextCut(was: map<int, seq<DataSave>>, before: map<int, seq<DataSave>>, rows: map<int, seq<DataSave>>,
                all: seq<DataSave>, cuts: seq<nat>, buf: seq<DataSave>, vec: seq<DataSave>, rest: seq<DataSave>,
                lost: set<nat>, commits: bool)
    returns (next: seq<nat>)
    requires |cuts| > 0 && commits == (|cuts| - 1 !in lost)
    requires Drained(was, before, all, buf, cuts, lost)
    requires Popped(buf, vec, rest)
    requires Stored(before, rows, vec, commits)
    ensures |next| == |cuts| + 1 && Drained(was, rows, all, rest, next, lost)
  {
    next := CutNext(all, cuts, buf, vec);
    var n := |cuts|;
    forall m ensures FilledFor(was, rows, all, next, lost, n, m) {
      assert FilledFor(was, before, all, cuts, lost, n - 1, m);
      FilledNext(was, before, rows, all, cuts, next[n], vec, lost, commits, m);
    }
  }

  lemma FilledNext(was: map<int, seq<DataSave>>, before: map<int, seq<DataSave>>, rows: map<int, seq<DataSave>>,
                   all: seq<DataSave>, cuts: seq<nat>, e: nat, vec: seq<DataSave>, lost: set<nat>, commits: bool,
                   m: int)
    requires Cuts(all, cuts) && Cuts(all, cuts + [e]) && cuts[|cuts| - 1] <= e <= |all|
    requires vec == all[cuts[|cuts| - 1]..e] && vec != [] && commits == (|cuts| - 1 !in lost)
    requires FilledFor(was, before, all, cuts, lost, |cuts| - 1, m) && Stored(before, rows, vec, commits)
    ensures FilledFor(was, rows, all, cuts + [e], lost, |cuts|, m)
  {
    GainNext(all, cuts, e, vec, lost, m);
    StoredAt(before, rows, vec, commits, m);
    Assoc(RowsOf(was, m), Gained(all, cuts, lost, m, |cuts| - 1), vec);
  }

  lemma StoredAt(before: map<int, seq<DataSave>>, rows: map<int, seq<DataSave>>, vec: seq<DataSave>, commits: bool,
                 m: int)
    requires vec != [] && Stored(before, rows, vec, commits)
    ensures RowsOf(rows, m) == if commits && m == vec[0].month then RowsOf(before, m) + vec else RowsOf(before, m)
  {
  }

  lemma GainNext(all: seq<DataSave>, cuts: seq<nat>, e: nat, vec: seq<DataSave>, lost: set<nat>, m: int)
    requires Cuts(all, cuts) && Cuts(all, cuts + [e]) && cuts[|cuts| - 1] <= e <= |all|
    requires vec == all[cuts[|cuts| - 1]..e] && vec != []
    ensures var n := |cuts|;
            var g := Gained(all, cuts, lost, m, n - 1);
            Gained(all, cuts + [e], lost, m, n) == if vec[0].month == m && n - 1 !in lost then g + vec else g
  {
    SameGain(all, cuts, e, lost, m, |cuts| - 1);
    assert Batch(all, cuts + [e], |cuts| - 1) == vec;
  }

  lemma {:induction false} SameGain(all: seq<DataSave>, cuts: seq<nat>, e: nat, lost: set<nat>, m: int, n: nat)
    requires Cuts(all, cuts) && Cuts(all, cuts + [e]) && n < |cuts|
    ensures Gained(all, cuts + [e], lost, m, n) == Gained(all, cuts, lost, m, n)
  {
    if n > 0 {
      SameGain(all, cuts, e, lost, m, n - 1);
    }
  }

  /** Every batch of month m among the first n commits. */
  ghost predicate AllCommit(buf: seq<DataSave>, cuts: seq<nat>, lost: set<nat>, m: int, n: nat)
    requires Cuts(buf, cuts) && n < |cuts|
  {
    forall k: nat :: k < n && Reaches(buf, cuts, m, k) ==> k !in lost
  }

  lemma AllCommitStep(buf: seq<DataSave>, cuts: seq<nat>, lost: set<nat>, m: int, n: nat)
    requires Cuts(buf, cuts) && 0 < n < |cuts|
    ensures AllCommit(buf, cuts, lost, m, n) <==>
      AllCommit(buf, cuts, lost, m, n - 1) && (Reaches(buf, cuts, m, n - 1) ==> n - 1 !in lost)
  {
  }

  /** How many samples of month m are in batches that were lost. */
  ghost function LostSamples(buf: seq<DataSave>, cuts: seq<nat>, lost: set<nat>, m: int, n: nat): nat
    requires Cuts(buf, cuts) && n < |cuts|
  {
    if n == 0 then 0
    else
      LostSamples(buf, cuts, lost, m, n - 1)
      + if Reaches(buf, cuts, m, n - 1) && n - 1 in lost then |Batch(buf, cuts, n - 1)| else 0
  }

  /** Some samples of b, each once and in order. */
  ghost predicate Subseq(a: seq<DataSave>, b: seq<DataSave>)
    decreases |b|
  {
    a == [] || (b != [] && (Subseq(a, b[..|b| - 1])
                            || (a[|a| - 1] == b[|b| - 1] && Subseq(a[..|a| - 1], b[..|b| - 1]))))
  }

  /** All of them, if there are as many. */
  lemma {:induction false} SubseqFull(a: seq<DataSave>, b: seq<DataSave>)
    requires Subseq(a, b)
    ensures |a| <= |b| && (|a| == |b| ==> a == b)
    decreases |b|
  {
    if a != [] {
      if Subseq(a, b[..|b| - 1]) {
        SubseqFull(a, b[..|b| - 1]);
      } else {
        SubseqFull(a[..|a| - 1], b[..|b| - 1]);
        assert a == a[..|a| - 1] + [a[|a| - 1]] && b == b[..|b| - 1] + [b[|b| - 1]];
      }
    }
  }

  lemma {:induction false} SubseqSelf(a: seq<DataSave>)
    ensures Subseq(a, a)
  {
    if a != [] {
      SubseqSelf(a[..|a| - 1]);
    }
  }

  /** More behind the longer one, with or without it behind the shorter one. */
  lemma {:induction false} SubseqMore(a: seq<DataSave>, b: seq<DataSave>, c: seq<DataSave>)
    requires Subseq(a, b)
    ensures Subseq(a, b + c) && Subseq(a + c, b + c)
    decreases |c|
  {
    if c == [] {
      assert b + c == b && a + c == a;
    } else {
      var front, x := c[..|c| - 1], c[|c| - 1];
      SubseqMore(a, b, front);
      assert (b + c)[..|b + c| - 1] == b + front && (a + c)[..|a + c| - 1] == a + front;
    }
  }

  lemma {:induction false} SubseqBehind(c: seq<DataSave>, a: seq<DataSave>, b: seq<DataSave>)
    requires Subseq(a, b)
    ensures Subseq(c + a, c + b)
    decreases |b|
  {
    if a == [] {
      assert c + a == c;
      SubseqSelf(c);
      SubseqMore(c, c, b);
    } else {
      var b' := b[..|b| - 1];
      assert (c + b)[..|c + b| - 1] == c + b' && (c + a)[..|c + a| - 1] == c + a[..|a| - 1];
      if Subseq(a, b') {
        SubseqBehind(c, a, b');
      } else {
        SubseqBehind(c, a[..|a| - 1], b');
      }
    }
  }

  lemma {:induction false} SubseqTrans(a: seq<DataSave>, b: seq<DataSave>, c: seq<DataSave>)
    requires Subseq(a, b) && Subseq(b, c)
    ensures Subseq(a, c)
    decreases |c|
  {
    if a != [] {
      var c' := c[..|c| - 1];
      if Subseq(b, c') {
        SubseqTrans(a, b, c');
      } else if Subseq(a, b[..|b| - 1]) {
        SubseqTrans(a, b[..|b| - 1], c');
      } else {
        SubseqTrans(a[..|a| - 1], b[..|b| - 1], c');
      }
    }
  }

  /** What a month's database gains are its own samples of the drained part, each at most once and in
      order, and the rest of them was lost. */
  lemma {:induction false} GainedPlusLost(buf: seq<DataSave>, cuts: seq<nat>, lost: set<nat>, m: int, n: nat)
    requires Cuts(buf, cuts) && n < |cuts|
    ensures Subseq(Gained(buf, cuts, lost, m, n), Of(m, buf[..cuts[n]]))
    ensures |Gained(buf, cuts, lost, m, n)| + LostSamples(buf, cuts, lost, m, n) == |Of(m, buf[..cuts[n]])|
    ensures LostSamples(buf, cuts, lost, m, n) == 0 <==> AllCommit(buf, cuts, lost, m, n)
  {
    if n > 0 {
      GainedPlusLost(buf, cuts, lost, m, n - 1);
      OfBatch(buf, cuts, m, n - 1);
      SubseqMore(Gained(buf, cuts, lost, m, n - 1), Of(m, buf[..cuts[n - 1]]), Batch(buf, cuts, n - 1));
      AllCommitStep(buf, cuts, lost, m, n);
    }
  }

  /** They are all of its samples when and only when every batch of that month commits. */
  lemma GainedExactlyWhenCommitted(buf: seq<DataSave>, cuts: seq<nat>, lost: set<nat>, m: int, n: nat)
    requires Cuts(buf, cuts) && n < |cuts|
    ensures Gained(buf, cuts, lost, m, n) == Of(m, buf[..cuts[n]]) <==> AllCommit(buf, cuts, lost, m, n)
  {
    GainedPlusLost(buf, cuts, lost, m, n);
    SubseqFull(Gained(buf, cuts, lost, m, n), Of(m, buf[..cuts[n]]));
  }

  lemma OfBatch(buf: seq<DataSave>, cuts: seq<nat>, m: int, k: nat)
    requires Cuts(buf, cuts) && k + 1 < |cuts|
    ensures var o := Of(m, buf[..cuts[k]]);
            Of(m, buf[..cuts[k + 1]]) == if Reaches(buf, cuts, m, k) then o + Batch(buf, cuts, k) else o
  {
    var b := Batch(buf, cuts, k);
    assert BatchAt(buf, cuts, k);
    assert buf[..cuts[k + 1]] == buf[..cuts[k]] + b;
    OfConcat(m, buf[..cuts[k]], b);
    forall i: nat | i < |b| ensures SameMonth(b, 0, i) {
      assert SameMonth(buf, cuts[k], cuts[k] + i);
    }
    OfOneMonth(m, b);
    assert Of(m, buf[..cuts[k]]) + [] == Of(m, buf[..cuts[k]]);
  }

  /** The buffer, the databases and everything accepted, between two calls. */
  datatype Store = Store(buf: seq<DataSave>, rows: map<int, seq<DataSave>>, accepted: seq<DataSave>)

  /** What the database of month m holds, followed by what still waits for it. */
  ghost function Kept(s: Store, m: int): seq<DataSave> {
    RowsOf(s.rows, m) + Of(m, s.buf)
  }

  /** Samples of month m are kept each at most once, in the order in which they were accepted. */
  ghost predicate InOrder(s: Store, m: int) {
    Subseq(Kept(s, m), Of(m, s.accepted))
  }

  /** A call of Push, or of DataSave with the cuts it made and the batches that were lost. */
  datatype Call = Arrival(x: DataSave) | Drain(cuts: seq<nat>, lost: set<nat>)

  ghost predicate Step(s: Store, c: Call, t: Store) {
    match c
    case Arrival(x) =>
      t == if |s.buf| < 10000 then Store(s.buf + [x], s.rows, s.accepted + [x]) else s
    case Drain(cuts, lost) =>
      t.accepted == s.accepted && Drained(s.rows, t.rows, s.buf, t.buf, cuts, lost)
  }

  /** How many samples of month m a call loses, and whether all its batches of that month commit. */
  ghost function LostBy(s: Store, c: Call, m: int): nat {
    if c.Drain? && Cuts(s.buf, c.cuts) then LostSamples(s.buf, c.cuts, c.lost, m, |c.cuts| - 1) else 0
  }

  ghost predicate Commits(s: Store, c: Call, m: int) {
    c.Drain? && Cuts(s.buf, c.cuts) ==> AllCommit(s.buf, c.cuts, c.lost, m, |c.cuts| - 1)
  }

  lemma ArrivalKeeps(s: Store, x: DataSave, m: int)
    requires InOrder(s, m)
    ensures var t := Store(s.buf + [x], s.rows, s.accepted + [x]);
            InOrder(t, m) && |Of(m, t.accepted)| - |Kept(t, m)| == |Of(m, s.accepted)| - |Kept(s, m)|
  {
    OfConcat(m, s.buf, [x]);
    OfConcat(m, s.accepted, [x]);
    Assoc(RowsOf(s.rows, m), Of(m, s.buf), Of(m, [x]));
    SubseqMore(Kept(s, m), Of(m, s.accepted), Of(m, [x]));
  }

  lemma DrainKeeps(s: Store, t: Store, cuts: seq<nat>, lost: set<nat>, m: int)
    requires Drained(s.rows, t.rows, s.buf, t.buf, cuts, lost) && t.accepted == s.accepted && InOrder(s, m)
    ensures InOrder(t, m)
    ensures |Kept(t, m)| + LostSamples(s.buf, cuts, lost, m, |cuts| - 1) == |Kept(s, m)|
  {
    var n := |cuts| - 1;
    var was, g, front, rest := RowsOf(s.rows, m), Gained(s.buf, cuts, lost, m, n), Of(m, s.buf[..cuts[n]]),
        Of(m, t.buf);
    assert FilledFor(s.rows, t.rows, s.buf, cuts, lost, n, m);
    SplitAt(m, s.buf, cuts[n]);
    GainedPlusLost(s.buf, cuts, lost, m, n);
    SubseqBehind(was, g, front);
    SubseqMore(was + g, was + front, rest);
    Assoc(was, front, rest);
    SubseqTrans(Kept(t, m), Kept(s, m), Of(m, s.accepted));
  }

  lemma StepKeeps(s: Store, c: Call, t: Store, m: int)
    requires Step(s, c, t) && InOrder(s, m)
    ensures InOrder(t, m)
    ensures |Of(m, t.accepted)| - |Kept(t, m)| == |Of(m, s.accepted)| - |Kept(s, m)| + LostBy(s, c, m)
    ensures LostBy(s, c, m) == 0 <==> Commits(s, c, m)
  {
    match c
    case Arrival(x) => ArrivalKeeps(s, x, m);
    case Drain(cuts, lost) =>
      DrainKeeps(s, t, cuts, lost, m);
      GainedPlusLost(s.buf, cuts, lost, m, |cuts| - 1);
  }

  ghost predicate StepAt(run: seq<Store>, calls: seq<Call>, i: nat)
    requires i < |calls| == |run| - 1
  {
    Step(run[i], calls[i], run[i + 1])
  }

  ghost function LostOver(run: seq<Store>, calls: seq<Call>, m: int, n: nat): nat
    requires n <= |calls| <= |run|
  {
    if n == 0 then 0 else LostOver(run, calls, m, n - 1) + LostBy(run[n - 1], calls[n - 1], m)
  }

  ghost predicate CommitsAt(run: seq<Store>, calls: seq<Call>, m: int, i: nat)
    requires i < |calls| <= |run|
  {
    Commits(run[i], calls[i], m)
  }

  /** Over any run of arrivals and drains, interleaved in any way and with any failures: of each
      month, rows and waiting samples are accepted samples of that month, each at most once and in
      order, and exactly the samples of lost batches are missing. Nothing is missing if and only if
      every batch of the month committed in every drain. */
  lemma {:induction false} NothingLostOverRuns(run: seq<Store>, calls: seq<Call>, m: int, n: nat)
    requires n < |run| == |calls| + 1 && run[0] == Store([], map[], [])
    requires forall i: nat :: i < |calls| ==> StepAt(run, calls, i)
    ensures InOrder(run[n], m)
    ensures |Of(m, run[n].accepted)| == |Kept(run[n], m)| + LostOver(run, calls, m, n)
    ensures Kept(run[n], m) == Of(m, run[n].accepted) <==> forall i: nat :: i < n ==> CommitsAt(run, calls, m, i)
    decreases n
  {
    if n > 0 {
      var i: nat := n - 1;
      NothingLostOverRuns(run, calls, m, i);
      assert StepAt(run, calls, i);
      StepKeeps(run[i], calls[i], run[n], m);
      SubseqFull(Kept(run[i], m), Of(m, run[i].accepted));
      SubseqFull(Kept(run[n], m), Of(m, run[n].accepted));
      assert CommitsAt(run, calls, m, i) <==> Commits(run[i], calls[i], m);
    }
  }

  // ---------- one address out of a queue ----------

  datatype Address = Address(id: int, address: nat)

  /** The last queued object with the requested address if there is one, else the first. */
  function Survivor(que: seq<Address>, address: nat): (k: nat)
    requires que != []
    ensures k < |que|
    ensures que[k].address == address > 0 || k == 0
    ensures address > 0 ==> forall i :: k < i < |que| ==> que[i].address != address
    ensures address > 0 && k == 0 && que[0].address != address ==>
              forall i :: 0 <= i < |que| ==> que[i].address != address
  {
    LastWith(que, address, |que|)
  }

  function LastWith(que: seq<Address>, address: nat, n: nat): (k: nat)
    requires 0 < n <= |que|
    ensures k < n
    ensures (que[k].address == address && address > 0) || k == 0
    ensures address > 0 ==> forall i :: k < i < n ==> que[i].address != address
  {
    if n == 1 || (address > 0 && que[n - 1].address == address) then n - 1 else LastWith(que, address, n - 1)
  }

  /** Every object from n on except the k-th, the last one first. */
  function AllBut(all: seq<Address>, k: nat, n: nat): seq<Address>
    requires n <= |all|
    decreases |all| - n
  {
    if n == |all| then []
    else if n == k then AllBut(all, k, n + 1)
    else AllBut(all, k, n + 1) + [all[n]]
  }

  lemma {:induction false} AllButOne(all: seq<Address>, k: nat, n: nat)
    requires n <= k < |all|
    ensures multiset(AllBut(all, k, n)) + multiset{all[k]} == multiset(all[n..])
    decreases k - n
  {
    assert all[n..] == [all[n]] + all[n + 1..];
    if n == k {
      AllAfter(all, k, n + 1);
    } else {
      AllButOne(all, k, n + 1);
    }
  }

  lemma {:induction false} AllAfter(all: seq<Address>, k: nat, n: nat)
    requires k < n <= |all|
    ensures multiset(AllBut(all, k, n)) == multiset(all[n..])
    decreases |all| - n
  {
    if n < |all| {
      AllAfter(all, k, n + 1);
      assert all[n..] == [all[n]] + all[n + 1..];
    }
  }

  /** The objects are deleted from the back of the queue, the survivor being passed over. */
  lemma {:induction false} DeletedFromBack(all: seq<Address>, k: nat, n: nat, j: nat)
    requires n <= |all| && k < |all| && j < |all| - n - if n <= k then 1 else 0
    ensures |AllBut(all, k, n)| == |all| - n - if n <= k then 1 else 0
    ensures AllBut(all, k, n)[j] == all[|all| - 1 - j - if |all| - 1 - j <= k && n <= k then 1 else 0]
    decreases |all| - n
  {
    if n == k {
      if j < |all| - n - 1 {
        DeletedFromBack(all, k, n + 1, j);
      }
    } else {
      var m := |all| - (n + 1) - if n + 1 <= k then 1 else 0;
      AllButLength(all, k, n + 1);
      if j < m {
        DeletedFromBack(all, k, n + 1, j);
      }
    }
  }

  lemma {:induction false} AllButLength(all: seq<Address>, k: nat, n: nat)
    requires n <= |all| && k < |all|
    ensures |AllBut(all, k, n)| == |all| - n - if n <= k then 1 else 0
    decreases |all| - n
  {
    if n < |all| {
      AllButLength(all, k, n + 1);
    }
  }

  /** The survivor and the deleted objects are the queue, each object once. */
  lemma EachDeletedOnce(que: seq<Address>, address: nat)
    requires que != []
    ensures var k := Survivor(que, address); multiset(AllBut(que, k, 0)) + multiset{que[k]} == multiset(que)
  {
    AllButOne(que, Survivor(que, address), 0);
    assert que[0..] == que;
  }

  /** What is left of the queue when the objects before n are still to be looked at. */
  ghost function Left(all: seq<Address>, k: nat, n: nat, isFound: bool): seq<Address>
    requires n <= |all| && k < |all|
  {
    if isFound then [all[k]] + all[..n] else all[..n]
  }

  lemma PopBack(all: seq<Address>, k: nat, n: nat, isFound: bool)
    requires 1 <= n <= |all| && k < |all|
    ensures var que := Left(all, k, n, isFound);
            que != [] && que[|que| - 1] == all[n - 1] && que[..|que| - 1] == Left(all, k, n - 1, isFound)
  {
  }

  class AddressManager {
    var que: seq<Address>
    var deleted: seq<Address>

    constructor (que: seq<Address>)
      ensures this.que == que && deleted == []
    {
      this.que, deleted := que, [];
    }

    method AddressQueueChangeToOneAddr(address: nat)
      modifies this
      ensures old(que) == [] ==> que == [] && deleted == old(deleted)
      ensures old(que) != [] ==>
        var k := Survivor(old(que), address);
        && que == [old(que)[k]]
        && deleted == old(deleted) + AllBut(old(que), k, 0)
    {
      var isFound := false;
      if que == [] {
        return;
      }
      ghost var all, k, n := que, Survivor(que, address), |que|;
      while |que| > 1
        invariant n == |que| - (if isFound then 1 else 0) <= |all| && 1 <= |que|
        invariant if isFound then n <= k else k < n
        invariant que == Left(all, k, n, isFound) && deleted == old(deleted) + AllBut(all, k, n)
        decreases |que|, if isFound then 0 else 1
      {
        PopBack(all, k, n, isFound);
        n := n - 1;
        var addr := que[|que| - 1];
        que := que[..|que| - 1];
        if !isFound && address > 0 {
          if addr.address == address {
            isFound := true;
            que := [addr] + que;
            continue;
          }
        }
        deleted := deleted + [addr];
      }
    }
  }
}
