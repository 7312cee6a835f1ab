/** The manager of open month databases and the deletion of old month files
    (gsiot/src/DataStoreMgr.cpp 2349-2434, 2460-2560; the use counts of DataStoreMgr.h). */
module Eviction {

  /** A month file, named by its year and month; names are ordered as the file names are. */
  type DbName = nat

  const CHECK_INTERVAL := 6 * 60 * 60 * 1000

  /** The 32-bit millisecond clock, and the time from one reading to a later one. */
  type tick = t: int | 0 <= t < 0x1_0000_0000

  function Elapsed(from: tick, to: tick): tick {
    (to - from) % 0x1_0000_0000
  }

  /** getuse_SYS_DBDataFileMax. */
  function FileMax(configured: int): int {
    if configured < 3 then 3 else configured
  }

  ghost predicate Ascending(files: seq<DbName>) {
    forall i, j :: 0 <= i < j < |files| ==> Older(files, i, j)
  }

  ghost predicate Older(files: seq<DbName>, i: int, j: int)
    requires 0 <= i < |files| && 0 <= j < |files|
  {
    files[i] < files[j]
  }

  predicate InUse(handles: map<DbName, int>, f: DbName) {
    f in handles && handles[f] != 0
  }

  /** The files of a list that are in use, and those that are not, in order. */
  function Used(files: seq<DbName>, handles: map<DbName, int>): seq<DbName> {
    if files == [] then []
    else
      var u, f := Used(files[..|files| - 1], handles), files[|files| - 1];
      if InUse(handles, f) then u + [f] else u
  }

  function Free(files: seq<DbName>, handles: map<DbName, int>): seq<DbName> {
    if files == [] then []
    else
      var u, f := Free(files[..|files| - 1], handles), files[|files| - 1];
      if InUse(handles, f) then u else u + [f]
  }

  /** The open databases left when those of the deleted files are closed. */
  function Closed(handles: map<DbName, int>, deleted: seq<DbName>): map<DbName, int> {
    handles - set f | f in deleted
  }

  lemma ClosedSnoc(handles: map<DbName, int>, deleted: seq<DbName>, f: DbName)
    ensures Closed(handles, deleted + [f]) == Closed(handles, deleted) - {f}
    ensures f !in Closed(handles, deleted) ==> Closed(handles, deleted + [f]) == Closed(handles, deleted)
  {
  }

  lemma ClosedNothing(handles: map<DbName, int>)
    ensures Closed(handles, []) == handles
  {
  }

  lemma {:induction false} UsedMembers(files: seq<DbName>, handles: map<DbName, int>)
    ensures forall f :: f in Used(files, handles) <==> InUse(handles, f) && f in files
    ensures forall f :: f in Free(files, handles) <==> !InUse(handles, f) && f in files
    ensures |Used(files, handles)| + |Free(files, handles)| == |files|
  {
    if files != [] {
      UsedMembers(files[..|files| - 1], handles);
      assert files == files[..|files| - 1] + [files[|files| - 1]];
    }
  }

  lemma UsedSnoc(files: seq<DbName>, k: nat, handles: map<DbName, int>)
    requires k < |files|
    ensures Used(files[..k + 1], handles) ==
            if InUse(handles, files[k]) then Used(files[..k], handles) + [files[k]] else Used(files[..k], handles)
    ensures Free(files[..k + 1], handles) ==
            if InUse(handles, files[k]) then Free(files[..k], handles) else Free(files[..k], handles) + [files[k]]
  {
    assert files[..k + 1][..k] == files[..k];
  }

  lemma NoneUsed(files: seq<DbName>, k: nat, handles: map<DbName, int>)
    requires k <= |files|
    ensures Used(files[..k], handles) == [] <==> forall i :: 0 <= i < k ==> !InUse(handles, files[i])
  {
    if k > 0 {
      NoneUsed(files, k - 1, handles);
      UsedSnoc(files, k - 1, handles);
    }
  }

  /** What one run of the deletion loop leaves: it has gone through the oldest `k` files, kept
      those in use and deleted the others. */
  ghost predicate Evicted(files: seq<DbName>, handles: map<DbName, int>, remaining: seq<DbName>, deleted: seq<DbName>,
                          k: nat) {
    && k <= |files|
    && remaining == Used(files[..k], handles) + files[k..]
    && deleted == Free(files[..k], handles)
  }

  /** None of the n oldest files is in use. */
  ghost predicate OldestFree(files: seq<DbName>, handles: map<DbName, int>, n: nat)
    requires n <= |files|
  {
    forall i :: 0 <= i < n ==> !InUse(handles, files[i])
  }

  /** What it takes to delete the free ones of the first k files: one step for each, and one more for
      every older file in use, which is looked at again before each of them. */
  function Cost(files: seq<DbName>, h: map<DbName, int>, k: nat): nat
    requires k <= |files|
  {
    if k == 0 then 0
    else Cost(files, h, k - 1) + if InUse(h, files[k - 1]) then 0 else 1 + |Used(files[..k - 1], h)|
  }

  lemma {:induction false} CostGrows(files: seq<DbName>, h: map<DbName, int>, k: nat, q: nat)
    requires k <= q <= |files|
    ensures Cost(files, h, k) <= Cost(files, h, q) && |Used(files[..k], h)| <= |Used(files[..q], h)|
  {
    if k < q {
      CostGrows(files, h, k, q - 1);
      UsedSnoc(files, q - 1, h);
    }
  }

  /** Without a file in use every deletion is one step; otherwise the deletions are fewer. */
  lemma {:induction false} CostOfDeleted(files: seq<DbName>, h: map<DbName, int>, k: nat)
    requires k <= |files|
    ensures |Free(files[..k], h)| <= Cost(files, h, k)
    ensures Used(files[..k], h) == [] ==> Cost(files, h, k) == k
  {
    if k > 0 {
      CostOfDeleted(files, h, k - 1);
      UsedSnoc(files, k - 1, h);
    }
  }

  /** A free file is deleted exactly if the steps up to it are no more than the files above the maximum. */
  ghost predicate DeletesAffordable(files: seq<DbName>, h: map<DbName, int>, max: nat, deleted: seq<DbName>) {
    forall q :: 0 <= q < |files| && !InUse(h, files[q]) ==>
      (files[q] in deleted <==> Cost(files, h, q + 1) <= |files| - max)
  }

  lemma AffordableUpTo(files: seq<DbName>, h: map<DbName, int>, max: nat, deleted: seq<DbName>, k: nat)
    requires Ascending(files) && k <= |files| && deleted == Free(files[..k], h)
    requires Cost(files, h, k) <= |files| - max
    requires forall q :: k <= q < |files| && !InUse(h, files[q]) ==> Cost(files, h, q + 1) > |files| - max
    ensures DeletesAffordable(files, h, max, deleted)
  {
    forall q: nat | q < |files| && !InUse(h, files[q])
      ensures files[q] in deleted <==> Cost(files, h, q + 1) <= |files| - max
    {
      FreeInPrefix(files, h, k, q);
      if q < k {
        CostGrows(files, h, q + 1, k);
      }
    }
  }

  lemma FreeInPrefix(files: seq<DbName>, h: map<DbName, int>, k: nat, q: nat)
    requires Ascending(files) && k <= |files| && q < |files| && !InUse(h, files[q])
    ensures files[q] in Free(files[..k], h) <==> q < k
  {
    UsedMembers(files[..k], h);
    InPrefix(files, k, q);
  }

  lemma InPrefix(files: seq<DbName>, k: nat, q: nat)
    requires Ascending(files) && k <= |files| && q < |files|
    ensures files[q] in files[..k] <==> q < k
  {
    if q < k {
      assert files[..k][q] == files[q];
    }
    forall i | 0 <= i < k <= q ensures files[..k][i] != files[q] {
      assert Older(files, i, q);
    }
  }

  /** The file the loop looks at is one it kept before, or the next of the original list. */
  lemma FileAt(files: seq<DbName>, h: map<DbName, int>, remaining: seq<DbName>, deleted: seq<DbName>, k: nat, it: nat)
    requires Evicted(files, h, remaining, deleted, k)
    requires it <= |Used(files[..k], h)| && it < |remaining|
    ensures InUse(Closed(h, deleted), remaining[it]) == InUse(h, remaining[it])
    ensures it < |Used(files[..k], h)| ==> InUse(h, remaining[it])
    ensures it == |Used(files[..k], h)| ==> k < |files| && remaining[it] == files[k]
  {
    var u := Used(files[..k], h);
    UsedMembers(files[..k], h);
    if it < |u| {
      assert remaining[it] == u[it];
    }
  }

  lemma KeepNext(files: seq<DbName>, h: map<DbName, int>, remaining: seq<DbName>, deleted: seq<DbName>, k: nat)
    requires Evicted(files, h, remaining, deleted, k) && k < |files| && InUse(h, files[k])
    ensures Evicted(files, h, remaining, deleted, k + 1)
    ensures Used(files[..k + 1], h) == Used(files[..k], h) + [files[k]]
  {
    UsedSnoc(files, k, h);
    assert files[k..] == [files[k]] + files[k + 1..];
  }

  lemma DeleteNext(files: seq<DbName>, h: map<DbName, int>, remaining: seq<DbName>, deleted: seq<DbName>, k: nat,
                   it: nat)
    requires Evicted(files, h, remaining, deleted, k) && k < |files| && !InUse(h, files[k])
    requires it == |Used(files[..k], h)| < |remaining|
    ensures Evicted(files, h, remaining[..it] + remaining[it + 1..], deleted + [files[k]], k + 1)
    ensures Used(files[..k + 1], h) == Used(files[..k], h)
  {
    UsedSnoc(files, k, h);
  }

  /** The invariant of the deletion loop. */
  ghost predicate Deleting(files: seq<DbName>, h: map<DbName, int>, max: nat,
                           remaining: seq<DbName>, deleted: seq<DbName>, k: nat, it: nat, sno: int)
  {
    && Evicted(files, h, remaining, deleted, k)
    && it <= |Used(files[..k], h)| && max <= |remaining| && max < |files|
    && (it > 0 ==> sno > max)
    && Cost(files, h, k) <= |files| - max && sno == |files| - Cost(files, h, k) - it
    // with nothing in use so far, every step so far was a deletion
    && (Used(files[..k], h) == [] ==> sno == |remaining|)
    // the first file found in use puts the countdown behind the list for good
    && (Used(files[..k], h) != [] ==>
          sno < |remaining| && max < |remaining| && !OldestFree(files, h, |files| - max))
  }

  /** A file in use was found: it is among the oldest ones, and the loop may only go past it
      while the countdown is above the maximum. */
  lemma FoundUsed(files: seq<DbName>, h: map<DbName, int>, max: nat, remaining: seq<DbName>, deleted: seq<DbName>,
                  k: nat, it: nat, sno: int)
    returns (k': nat)
    requires Deleting(files, h, max, remaining, deleted, k, it, sno)
    requires max < |remaining| && it < |remaining| && InUse(h, remaining[it])
    ensures !OldestFree(files, h, |files| - max)
    ensures sno - 1 > max ==> Deleting(files, h, max, remaining, deleted, k', it + 1, sno - 1)
  {
    FileAt(files, h, remaining, deleted, k, it);
    k' := k;
    if it == |Used(files[..k], h)| {
      KeepNext(files, h, remaining, deleted, k);
      k' := k + 1;
    }
  }

  lemma FoundFree(files: seq<DbName>, h: map<DbName, int>, max: nat, remaining: seq<DbName>, deleted: seq<DbName>,
                  k: nat, it: nat, sno: int)
    requires Deleting(files, h, max, remaining, deleted, k, it, sno)
    requires max < |remaining| && it < |remaining| && !InUse(h, remaining[it])
    ensures Deleting(files, h, max, remaining[..it] + remaining[it + 1..], deleted + [remaining[it]], k + 1, 0, sno - 1)
  {
    FileAt(files, h, remaining, deleted, k, it);
    DeleteNext(files, h, remaining, deleted, k, it);
  }

  lemma LoopOver(files: seq<DbName>, h: map<DbName, int>, max: nat, remaining: seq<DbName>, deleted: seq<DbName>,
                 k: nat, it: nat, sno: int)
    requires Deleting(files, h, max, remaining, deleted, k, it, sno)
    requires |remaining| <= max || it == |remaining|
    ensures |remaining| == max <==> OldestFree(files, h, |files| - max)
    ensures Ascending(files) ==> DeletesAffordable(files, h, max, deleted)
  {
    NoneUsed(files, k, h);
    CostOfDeleted(files, h, k);
    UsedMembers(files[..k], h);
    if Ascending(files) {
      forall q | k <= q < |files| && !InUse(h, files[q]) ensures Cost(files, h, q + 1) > |files| - max {
        CostGrows(files, h, k, q);
      }
      AffordableUpTo(files, h, max, deleted, k);
    }
  }

  /** The loop gives up at a file in use: the next free file would take too many steps. */
  lemma GivesUp(files: seq<DbName>, h: map<DbName, int>, max: nat, remaining: seq<DbName>, deleted: seq<DbName>,
                k: nat, it: nat, sno: int)
    requires Ascending(files) && Deleting(files, h, max, remaining, deleted, k, it, sno) && sno - 1 <= max
    requires max < |remaining| && it < |remaining| && InUse(h, remaining[it])
    ensures |remaining| == max <==> OldestFree(files, h, |files| - max)
    ensures DeletesAffordable(files, h, max, deleted)
  {
    FileAt(files, h, remaining, deleted, k, it);
    var k' := FoundUsed(files, h, max, remaining, deleted, k, it, sno);
    forall q | k <= q < |files| && !InUse(h, files[q]) ensures Cost(files, h, q + 1) > |files| - max {
      UsedSnoc(files, k, h);
      CostGrows(files, h, if it == |Used(files[..k], h)| then k + 1 else k, q);
    }
    AffordableUpTo(files, h, max, deleted, k);
  }

  /** A check is carried out when it is asked for, when there has been none, or six hours after the last one
      on the wrapping millisecond clock. */
  ghost predicate Due(checkNow: bool, lastCheck: tick, now: tick) {
    checkNow || lastCheck == 0 || (now - lastCheck) % 0x1_0000_0000 >= 21600000
  }

  /** What a check does for the configured number of files: it never goes below it, and gets down to it
      exactly when none of the files it would have to delete is in use; then the newest ones are left.
      A configured number below 3 counts as 3. */
  ghost predicate Checks(configured: int, due: bool, files: seq<DbName>, handles: map<DbName, int>,
                         remaining: seq<DbName>, deleted: seq<DbName>) {
    && (!due ==> deleted == [] && remaining == files)
    && (configured >= 3 && due ==> ReducesTo(configured, files, handles, remaining, deleted))
    && (configured < 3 && due ==> ReducesTo(3, files, handles, remaining, deleted))
  }

  ghost predicate ReducesTo(max: nat, files: seq<DbName>, handles: map<DbName, int>, remaining: seq<DbName>,
                            deleted: seq<DbName>) {
    if |files| <= max then deleted == [] && remaining == files
    else
      var n := |files| - max;
      && |remaining| >= max
      && (|remaining| == max <==> forall i :: 0 <= i < n ==> !InUse(handles, files[i]))
      && DeletesAffordable(files, handles, max, deleted)
      && ((forall i :: 0 <= i < n ==> !InUse(handles, files[i])) ==> remaining == files[n..] && deleted == files[..n])
  }

  class DataStoreMgr {
    /** Open databases and their use counts. */
    var handles: map<DbName, int>
    /** The time of the last finished check; 0 when none. */
    var lastCheck: tick

    constructor ()
      ensures handles == map[] && lastCheck == 0
    {
      handles, lastCheck := map[], 0;
    }

    /** DBMgr_set. */
    method Set(f: DbName) returns (ok: bool)
      modifies this`handles
      ensures ok == (f !in old(handles))
      ensures handles == if ok then old(handles)[f := 0] else old(handles)
    {
      if f in handles {
        return false;
      }
      handles := handles[f := 0];
      return true;
    }

    /** DBMgr_get. */
    method Get(f: DbName) returns (found: bool)
      modifies this`handles
      ensures found == (f in old(handles))
      ensures handles == if found then old(handles)[f := old(handles)[f] + 1] else old(handles)
    {
      if f in handles {
        handles := handles[f := handles[f] + 1];
        return true;
      }
      return false;
    }

    /** DBMgr_release, on a handle obtained from Get. */
    method Release(f: DbName)
      requires f in handles
      modifies this`handles
      ensures handles == old(handles)[f := old(handles)[f] - 1]
    {
      handles := handles[f := handles[f] - 1];
    }

    /** DBMgr_is_stat_day: the look-up goes through the counting Get and nothing gives the use
        back. `done` stands for the day set of the open database. */
    method IsStatDay(f: DbName, done: bool) returns (r: bool)
      modifies this`handles
      ensures r == (f in old(handles) && done)
      ensures handles == if f in old(handles) then old(handles)[f := old(handles)[f] + 1] else old(handles)
    {
      var found := Get(f);
      if found {
        return done;
      }
      return false;
    }

    /** DBMgr_Check. `files` are the month files found on disk, `now` the tick count of the run. */
    method Check(checkNow: bool, configured: int, files: seq<DbName>, now: tick)
      returns (remaining: seq<DbName>, deleted: seq<DbName>, ghost k: nat)
      requires Ascending(files)
      modifies this
      ensures Evicted(files, old(handles), remaining, deleted, k)
      ensures handles == Closed(old(handles), deleted)
      ensures Checks(configured, Due(checkNow, old(lastCheck), now), files, old(handles), remaining, deleted)
      ensures lastCheck == if Due(checkNow, old(lastCheck), now) && (|remaining| <= 3 || |remaining| <= configured)
                           then now else if checkNow then 0 else old(lastCheck)
    {
      remaining, deleted, k := files, [], 0;
      if checkNow {
        lastCheck := 0;
      }
      var max := FileMax(configured);
      if lastCheck != 0 && Elapsed(lastCheck, now) < CHECK_INTERVAL {
        return;
      }
      if |files| <= max {
        lastCheck := now;
        return;
      }
      remaining, deleted, k := DeleteOld(files, max);
      if |remaining| <= max {
        lastCheck := now;
      }
      if OldestFree(files, old(handles), |files| - max) {
        NewestAreLeft(files, old(handles), max, remaining, deleted, k);
      }
    }

    /** The deletion loop: it goes back to the oldest file after every deletion, while `sno`
        counts every step down. */
    method DeleteOld(files: seq<DbName>, max: nat)
      returns (remaining: seq<DbName>, deleted: seq<DbName>, ghost k: nat)
      requires Ascending(files) && |files| > max
      modifies this`handles
      ensures Evicted(files, old(handles), remaining, deleted, k)
      ensures DeletesAffordable(files, old(handles), max, deleted)
      ensures handles == Closed(old(handles), deleted)
      ensures |remaining| >= max
      ensures |remaining| == max <==> OldestFree(files, old(handles), |files| - max)
    {
      remaining, deleted, k := files, [], 0;
      var sno := |files|;
      var it := 0;
      ghost var h := handles;
      ClosedNothing(h);
      while |remaining| > max
        invariant Deleting(files, h, max, remaining, deleted, k, it, sno)
        invariant handles == Closed(h, deleted)
        decreases |remaining|, |remaining| - it
      {
        if it == |remaining| {
          break;
        }
        ghost var s := sno;
        sno := sno - 1;
        var file := remaining[it];
        FileAt(files, h, remaining, deleted, k, it);
        if file in handles {
          if handles[file] != 0 {
            ghost var k' := FoundUsed(files, h, max, remaining, deleted, k, it, s);
            if sno > max {
              k, it := k', it + 1;
              continue;
            } else {
              GivesUp(files, h, max, remaining, deleted, k, it, s);
              return;
            }
          } else {
            handles := handles - {file};
          }
        }
        FoundFree(files, h, max, remaining, deleted, k, it, s);
        ClosedSnoc(h, deleted, file);
        deleted, remaining := deleted + [file], remaining[..it] + remaining[it + 1..];
        k, it := k + 1, 0;
      }
      LoopOver(files, h, max, remaining, deleted, k, it, sno);
    }
  }

  // ---------- what a run of the deletion loop means ----------

  /** Every file is kept or deleted, none that is in use is deleted, and one is deleted only if
      every older file that stays is in use. */
  lemma EvictionIsSafe(files: seq<DbName>, h: map<DbName, int>, remaining: seq<DbName>, deleted: seq<DbName>, k: nat)
    requires Ascending(files) && Evicted(files, h, remaining, deleted, k)
    ensures forall f :: f in files <==> f in remaining || f in deleted
    ensures forall f :: f in deleted ==> !InUse(h, f) && f !in remaining
    ensures forall f, d :: f in remaining && d in deleted && f < d ==> InUse(h, f)
  {
    UsedMembers(files[..k], h);
    assert files == files[..k] + files[k..];
    forall f, d | f in files[k..] && d in files[..k] ensures d < f {
      var i :| 0 <= i < |files| - k && files[k..][i] == f;
      var j :| 0 <= j < k && files[..k][j] == d;
      assert Older(files, j, k + i);
    }
  }

  /** When the maximum is reached, exactly the newest files are left. */
  lemma NewestAreLeft(files: seq<DbName>, h: map<DbName, int>, max: nat, remaining: seq<DbName>, deleted: seq<DbName>,
                      k: nat)
    requires Evicted(files, h, remaining, deleted, k) && |remaining| == max <= |files|
    requires OldestFree(files, h, |files| - max)
    ensures remaining == files[|files| - max..] && deleted == files[..|files| - max]
  {
    var n := |files| - max;
    if k < n {
      NoneUsed(files, k, h);
    } else {
      UsedAfter(files, h, n, k);
    }
  }

  /** Behind n free files at most the rest can be in use; if all of it is, it is what was kept. */
  lemma {:induction false} UsedAfter(files: seq<DbName>, h: map<DbName, int>, n: nat, k: nat)
    requires n <= k <= |files| && OldestFree(files, h, n)
    ensures |Used(files[..k], h)| <= k - n
    ensures |Used(files[..k], h)| == k - n ==> Used(files[..k], h) == files[n..k] && Free(files[..k], h) == files[..n]
  {
    if n == k {
      NoneUsed(files, n, h);
      AllFree(files, h, n);
    } else {
      UsedAfter(files, h, n, k - 1);
      var u, next := Used(files[..k - 1], h), files[k - 1];
      UsedSnoc(files, k - 1, h);
      if InUse(h, next) && |u| == k - 1 - n {
        assert u == files[n..k - 1];
        assert files[n..k - 1] + [next] == files[n..k];
      }
    }
  }

  lemma {:induction false} AllFree(files: seq<DbName>, h: map<DbName, int>, n: nat)
    requires n <= |files| && OldestFree(files, h, n)
    ensures Free(files[..n], h) == files[..n]
  {
    if n > 0 {
      AllFree(files, h, n - 1);
      UsedSnoc(files, n - 1, h);
      assert !InUse(h, files[n - 1]);
      assert files[..n] == files[..n - 1] + [files[n - 1]];
    }
  }

  // ---------- use counts over whole runs ----------

  datatype Op =
    | Open(f: DbName)
    | Acquire(f: DbName)
    | GiveBack(f: DbName)
    | Probe(f: DbName)
    | Evict(files: seq<DbName>)

  /** The open databases with their counts, and, of each count, how much is held by callers that
      will release it and how much was taken by probes. */
  datatype Books = Books(handles: map<DbName, int>, held: map<DbName, int>, probed: map<DbName, int>)

  ghost predicate Balanced(b: Books) {
    && b.handles.Keys == b.held.Keys == b.probed.Keys
    && forall f :: f in b.handles ==> b.held[f] >= 0 && b.probed[f] >= 0 && b.handles[f] == b.held[f] + b.probed[f]
  }

  /** Callers release only what they hold, and only files out of use are evicted. */
  ghost predicate Legal(b: Books, op: Op) {
    match op
    case GiveBack(f) => f in b.held && b.held[f] > 0
    case Evict(files) => forall f :: f in files ==> !InUse(b.handles, f)
    case _ => true
  }

  ghost function Apply(b: Books, op: Op): Books
    requires Balanced(b) && Legal(b, op)
  {
    match op
    case Open(f) => if f in b.handles then b else Books(b.handles[f := 0], b.held[f := 0], b.probed[f := 0])
    case Acquire(f) =>
      if f in b.handles
      then b.(handles := b.handles[f := b.handles[f] + 1], held := b.held[f := b.held[f] + 1])
      else b
    case GiveBack(f) => b.(handles := b.handles[f := b.handles[f] - 1], held := b.held[f := b.held[f] - 1])
    case Probe(f) =>
      if f in b.handles
      then b.(handles := b.handles[f := b.handles[f] + 1], probed := b.probed[f := b.probed[f] + 1])
      else b
    case Evict(files) => Books(Closed(b.handles, files), Closed(b.held, files), Closed(b.probed, files))
  }

  lemma ApplyBalanced(b: Books, op: Op)
    requires Balanced(b) && Legal(b, op)
    ensures Balanced(Apply(b, op))
  {
  }

  ghost predicate LegalRun(b: Books, ops: seq<Op>)
    requires Balanced(b)
    decreases |ops|
  {
    ops == [] || (Legal(b, ops[0]) && (ApplyBalanced(b, ops[0]); LegalRun(Apply(b, ops[0]), ops[1..])))
  }

  ghost function RunOps(b: Books, ops: seq<Op>): (r: Books)
    requires Balanced(b) && LegalRun(b, ops)
    ensures Balanced(r)
    decreases |ops|
  {
    if ops == [] then b else (ApplyBalanced(b, ops[0]); RunOps(Apply(b, ops[0]), ops[1..]))
  }

  /** A use taken by a day-statistics probe is never given back: in every legal run from there the
      file stays open and in use, so no check deletes it, and no check that finds it among the
      files to go ever gets down to the maximum. */
  lemma {:induction false} ProbedIsPinned(b: Books, ops: seq<Op>, f: DbName)
    requires Balanced(b) && LegalRun(b, ops) && f in b.probed && b.probed[f] > 0
    ensures var r := RunOps(b, ops);
            && InUse(r.handles, f)
            && forall files: seq<DbName>, n: nat :: n <= |files| && f in files[..n] ==> !OldestFree(files, r.handles, n)
    decreases |ops|
  {
    if ops != [] {
      ApplyBalanced(b, ops[0]);
      ProbedIsPinned(Apply(b, ops[0]), ops[1..], f);
    } else {
      forall files: seq<DbName>, n: nat | n <= |files| && f in files[..n] ensures !OldestFree(files, b.handles, n) {
        var i :| 0 <= i < n && files[..n][i] == f;
        assert InUse(b.handles, files[i]);
      }
    }
  }

  /** Some probe of the run finds f open. */
  ghost predicate ProbesOpen(b: Books, ops: seq<Op>, f: DbName)
    requires Balanced(b) && LegalRun(b, ops)
    decreases |ops|
  {
    ops != [] && ((ops[0] == Probe(f) && f in b.handles)
                  || (ApplyBalanced(b, ops[0]); ProbesOpen(Apply(b, ops[0]), ops[1..], f)))
  }

  /** No probe has taken a use of f. */
  ghost predicate NotProbed(b: Books, f: DbName) {
    f in b.probed ==> b.probed[f] == 0
  }

  /** f is in use exactly while some caller holds it. */
  ghost predicate UseIsHeld(b: Books, f: DbName) {
    InUse(b.handles, f) <==> f in b.held && b.held[f] > 0
  }

  /** A run leaves a probe's use behind exactly when there was one before or a probe found f open. */
  lemma {:induction false} ProbesRemain(b: Books, ops: seq<Op>, f: DbName)
    requires Balanced(b) && LegalRun(b, ops)
    ensures NotProbed(RunOps(b, ops), f) <==> NotProbed(b, f) && !ProbesOpen(b, ops, f)
    decreases |ops|
  {
    if ops != [] {
      ApplyBalanced(b, ops[0]);
      ProbesRemain(Apply(b, ops[0]), ops[1..], f);
      if !NotProbed(b, f) {
        assert InUse(b.handles, f);
      }
    }
  }

  /** Without such a probe a file is in use exactly while some caller holds it. */
  lemma HeldIsInUse(b: Books, ops: seq<Op>, f: DbName)
    requires Balanced(b) && LegalRun(b, ops) && NotProbed(b, f) && !ProbesOpen(b, ops, f)
    ensures UseIsHeld(RunOps(b, ops), f)
  {
    ProbesRemain(b, ops, f);
  }

  ghost predicate HeldAfter(b: Books, ops: seq<Op>, f: DbName)
    requires Balanced(b)
  {
    LegalRun(b, ops) && !ProbesOpen(b, ops, f) ==> UseIsHeld(RunOps(b, ops), f)
  }

  /** Giving back every held use of f. */
  function GiveAllBack(f: DbName, n: nat): (ops: seq<Op>)
    ensures |ops| == n && forall i :: 0 <= i < n ==> ops[i] == GiveBack(f)
  {
    seq(n, _ => GiveBack(f))
  }

  lemma {:induction false} AllGivenBack(b: Books, f: DbName, n: nat)
    requires Balanced(b) && f in b.held && b.held[f] == n
    ensures LegalRun(b, GiveAllBack(f, n)) && !ProbesOpen(b, GiveAllBack(f, n), f)
    ensures var r := RunOps(b, GiveAllBack(f, n));
            f in r.handles && r.held[f] == 0 && r.probed[f] == b.probed[f]
    decreases n
  {
    if n > 0 {
      ApplyBalanced(b, GiveBack(f));
      assert GiveAllBack(f, n)[1..] == GiveAllBack(f, n - 1);
      AllGivenBack(Apply(b, GiveBack(f)), f, n - 1);
    }
  }

  /** In every run from here in which no probe finds f open, f is in use exactly while some caller
      holds it, if and only if no earlier probe has taken a use of it. */
  lemma UseIsHeldExactly(b: Books, f: DbName)
    requires Balanced(b)
    ensures (forall ops :: HeldAfter(b, ops, f)) <==> NotProbed(b, f)
  {
    if NotProbed(b, f) {
      forall ops ensures HeldAfter(b, ops, f) {
        if LegalRun(b, ops) && !ProbesOpen(b, ops, f) {
          HeldIsInUse(b, ops, f);
        }
      }
    } else {
      AllGivenBack(b, f, b.held[f]);
      assert !HeldAfter(b, GiveAllBack(f, b.held[f]), f);
    }
  }
}
