/** Searches in a time-ordered sample list (gsiot/src/DataStoreMgr.cpp): the two ordered
    searches of std::map, the neighbours they give, and the sample chosen for a point in time. */
module Lookup {
  import opened Stats

  const VALID_RANGE_PREV := 35 * 60
  const VALID_RANGE_NEXT := 10 * 60

  /** What an unset stru_V1K holds; its time 0 is read as "nothing found". */
  const NO_SAMPLE := Sample(0, 0, 0)

  ghost predicate Earlier(s: seq<Sample>, i: int, j: int)
    requires 0 <= i < |s| && 0 <= j < |s|
  {
    s[i].time < s[j].time
  }

  /** The order of a std::map keyed by time: strictly increasing positive times. */
  ghost predicate Ordered(s: seq<Sample>) {
    PositiveTimes(s) && forall i, j :: 0 <= i < j < |s| ==> Earlier(s, i, j)
  }

  lemma OrderedSlice(s: seq<Sample>, lo: nat, hi: nat)
    requires Ordered(s) && lo <= hi <= |s|
    ensures Ordered(s[lo..hi])
  {
    var w := s[lo..hi];
    forall i, j | 0 <= i < j < |w| ensures Earlier(w, i, j) {
      assert Earlier(s, lo + i, lo + j);
    }
  }

  /** std::map::lower_bound: the first position whose time is not before t. */
  function LowerBound(s: seq<Sample>, t: int): (k: nat)
    ensures k <= |s|
    ensures k < |s| ==> s[k].time >= t
  {
    if s == [] then 0
    else if s[0].time >= t then 0
    else LowerBound(s[1..], t) + 1
  }

  /** std::map::upper_bound: the first position whose time is after t. */
  function UpperBound(s: seq<Sample>, t: int): (k: nat)
    ensures k <= |s|
    ensures k < |s| ==> s[k].time > t
  {
    LowerBound(s, t + 1)
  }

  /** A position lies below the bound exactly when its time does. */
  lemma {:induction false} BelowBound(s: seq<Sample>, t: int, i: nat)
    requires Ordered(s) && i < |s|
    ensures i < LowerBound(s, t) <==> s[i].time < t
  {
    if s[0].time >= t {
      if i > 0 {
        assert Earlier(s, 0, i);
      }
    } else if i > 0 {
      OrderedSlice(s, 1, |s|);
      assert s[1..|s|] == s[1..];
      BelowBound(s[1..], t, i - 1);
    }
  }

  /** g_getLeftV1k: the nearest sample at or before t, at most `range` back (0: any distance). */
  function GetLeft(t: int, s: seq<Sample>, range: nat): Sample {
    var it := UpperBound(s, t);
    if it == 0 then NO_SAMPLE
    else if range != 0 && s[it - 1].time < t - range then NO_SAMPLE
    else s[it - 1]
  }

  /** g_getRightV1k: the nearest sample at or after t, at most `range` ahead (0: any distance). */
  function GetRight(t: int, s: seq<Sample>, range: nat): Sample {
    var it := LowerBound(s, t);
    if it == |s| then NO_SAMPLE
    else if range != 0 && s[it].time > t + range then NO_SAMPLE
    else s[it]
  }

  /** GetValueForSpecTime_lst: whether a sample is chosen for time t, and which. */
  function GetValueForSpecTime(t: int, s: seq<Sample>, prev: nat, next: nat): (bool, Sample) {
    var right := GetRight(t, s, next);
    if t == right.time then (true, right)
    else
      var left := GetLeft(t, s, prev);
      if t == left.time then (true, left)
      else if right.time == 0 && left.time == 0 then (false, NO_SAMPLE)
      else if right.time == 0 then (true, left)
      else if left.time == 0 then (true, right)
      else
        var leftSpan, rightSpan := t - left.time, right.time - t;
        if leftSpan < 60 || rightSpan < 60 then
          (true, if leftSpan <= rightSpan then left else right)
        else
          (true, left)
  }

  // ---------- the linear reading of the same choice ----------

  /** Sample i may stand for time t. */
  ghost predicate Candidate(s: seq<Sample>, i: int, t: int, prev: nat, next: nat) {
    0 <= i < |s| && (prev != 0 && s[i].time <= t ==> t - s[i].time <= prev)
    && (next != 0 && s[i].time >= t ==> s[i].time - t <= next)
  }

  /** Sample i is the latest candidate at or before t. */
  ghost predicate Before(s: seq<Sample>, i: int, t: int, prev: nat, next: nat) {
    Candidate(s, i, t, prev, next) && s[i].time <= t
    && forall j :: Candidate(s, j, t, prev, next) && s[j].time <= t ==> s[j].time <= s[i].time
  }

  /** Sample i is the earliest candidate at or after t. */
  ghost predicate After(s: seq<Sample>, i: int, t: int, prev: nat, next: nat) {
    Candidate(s, i, t, prev, next) && s[i].time >= t
    && forall j :: Candidate(s, j, t, prev, next) && s[j].time >= t ==> s[j].time >= s[i].time
  }

  lemma LeftIsBefore(t: int, s: seq<Sample>, prev: nat, next: nat)
    requires Ordered(s) && t > 0
    ensures var l := GetLeft(t, s, prev);
            (l.time != 0 <==> exists i :: Candidate(s, i, t, prev, next) && s[i].time <= t)
            && (l.time != 0 ==> exists i :: Before(s, i, t, prev, next) && s[i] == l)
            && (l.time == 0 ==> l == NO_SAMPLE)
  {
    var k := UpperBound(s, t);
    forall i | 0 <= i < |s| && s[i].time <= t
      ensures i < k && (i < k - 1 ==> s[i].time < s[k - 1].time)
    {
      BelowBound(s, t + 1, i);
      assert i < k - 1 ==> Earlier(s, i, k - 1);
    }
    if k > 0 {
      BelowBound(s, t + 1, k - 1);
      if Candidate(s, k - 1, t, prev, next) {
        assert Before(s, k - 1, t, prev, next);
      }
    }
  }

  lemma RightIsAfter(t: int, s: seq<Sample>, prev: nat, next: nat)
    requires Ordered(s) && t > 0
    ensures var r := GetRight(t, s, next);
            (r.time != 0 <==> exists i :: Candidate(s, i, t, prev, next) && s[i].time >= t)
            && (r.time != 0 ==> exists i :: After(s, i, t, prev, next) && s[i] == r)
            && (r.time == 0 ==> r == NO_SAMPLE)
  {
    var k := LowerBound(s, t);
    forall i | 0 <= i < |s| && s[i].time >= t
      ensures k <= i && (k < i ==> s[k].time < s[i].time)
    {
      BelowBound(s, t, i);
      assert k < i ==> Earlier(s, k, i);
    }
    if k < |s| && Candidate(s, k, t, prev, next) {
      assert After(s, k, t, prev, next);
    }
  }

  /** The two ordered searches agree with a linear scan of the whole list. A sample is found
      exactly when one lies within the two ranges; an exact hit wins; the later neighbour is
      taken exactly when there is no earlier one or it is both nearer and less than 60 s away;
      in every other case the earlier neighbour is. */
  lemma NearestRefinesScan(t: int, s: seq<Sample>, prev: nat, next: nat)
    requires Ordered(s) && t > 0
    ensures var (found, r) := GetValueForSpecTime(t, s, prev, next);
      && (found <==> exists i :: Candidate(s, i, t, prev, next))
      && (!found ==> r == NO_SAMPLE)
      && (forall i :: 0 <= i < |s| && s[i].time == t ==> found && r == s[i])
      && (forall b, a :: Before(s, b, t, prev, next) && After(s, a, t, prev, next) ==>
            r == if s[a].time - t < 60 && s[a].time - t < t - s[b].time then s[a] else s[b])
      && (forall b :: Before(s, b, t, prev, next) && (forall a :: !After(s, a, t, prev, next)) ==> r == s[b])
      && (forall a :: After(s, a, t, prev, next) && (forall b :: !Before(s, b, t, prev, next)) ==> r == s[a])
  {
    var left, right := GetLeft(t, s, prev), GetRight(t, s, next);
    LeftIsBefore(t, s, prev, next);
    RightIsAfter(t, s, prev, next);
    forall i | 0 <= i < |s| && s[i].time == t ensures right == s[i] {
      assert Candidate(s, i, t, prev, next);
      var a :| After(s, a, t, prev, next) && s[a] == right;
      SameTime(s, a, i);
    }
    forall b | Before(s, b, t, prev, next) ensures left == s[b] {
      var b' :| Before(s, b', t, prev, next) && s[b'] == left;
      SameTime(s, b, b');
    }
    forall a | After(s, a, t, prev, next) ensures right == s[a] {
      var a' :| After(s, a', t, prev, next) && s[a'] == right;
      SameTime(s, a, a');
    }
    if right.time == t {
      var a :| After(s, a, t, prev, next) && s[a] == right;
      forall b | Before(s, b, t, prev, next) ensures s[b] == right {
        assert Candidate(s, a, t, prev, next);
        SameTime(s, a, b);
      }
    }
  }

  lemma SameTime(s: seq<Sample>, i: nat, j: nat)
    requires Ordered(s) && i < |s| && j < |s|
    ensures s[i].time == s[j].time ==> i == j
  {
    assert i < j ==> Earlier(s, i, j);
    assert j < i ==> Earlier(s, j, i);
  }

  /** With the default ranges: found exactly when a sample lies in [t - 2100, t + 600]. */
  lemma DefaultWindow(t: int, s: seq<Sample>)
    requires Ordered(s) && t > 0
    ensures GetValueForSpecTime(t, s, VALID_RANGE_PREV, VALID_RANGE_NEXT).0 <==>
            exists i :: 0 <= i < |s| && t - 2100 <= s[i].time <= t + 600
  {
    NearestRefinesScan(t, s, VALID_RANGE_PREV, VALID_RANGE_NEXT);
    forall i | 0 <= i < |s|
      ensures Candidate(s, i, t, VALID_RANGE_PREV, VALID_RANGE_NEXT) <==> t - 2100 <= s[i].time <= t + 600
    {
    }
  }
}
