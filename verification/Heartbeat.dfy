/** Heartbeat ageing of the children of a main radio node (gsbox/src/radionetwork.cpp 202-216,
    265-285, 379-476, 1194-1229). */
module Heartbeat {
  import opened Frames

  const TICKS_PER_ROUND := 60
  const LIMIT := 3

  /** A child node: the discovered address that identifies it, its id, whether it counts as online,
      and its eight-bit time-out counter. */
  datatype Child = Child(mac: seq<byte>, id: nat, online: bool, timeout: byte)

  datatype RoundResult = RoundResult(children: seq<Child>, probed: seq<nat>)

  function Ticked(c: Child): byte {
    (c.timeout as int + 1) % 256
  }

  /** A round that reaches this child drops it. */
  predicate Drops(c: Child) {
    Ticked(c) > LIMIT && !c.online
  }

  /** A child that a round has reached and not dropped. */
  function Aged(c: Child): Child {
    if Ticked(c) > LIMIT then c.(online := false, timeout := 0) else c.(timeout := Ticked(c))
  }

  /** One heartbeat round over the list, front to back: a child that is offline is probed; every
      child reached gets older; one whose counter passes the limit goes offline, or is dropped if
      it already was, which ends the round. */
  function Round(cs: seq<Child>): RoundResult {
    if cs == [] then RoundResult([], [])
    else
      var c := cs[0];
      var probe := if c.online then [] else [c.id];
      if Drops(c) then RoundResult(cs[1..], probe)
      else
        var rest := Round(cs[1..]);
        RoundResult([Aged(c)] + rest.children, probe + rest.probed)
  }

  /** The place of the first child with the id, or the length of the list. */
  function Place(cs: seq<Child>, id: nat): (i: nat)
    ensures i <= |cs| && (i < |cs| ==> cs[i].id == id)
    ensures forall j :: 0 <= j < i ==> cs[j].id != id
  {
    if cs == [] || cs[0].id == id then 0 else Place(cs[1..], id) + 1
  }

  /** The place of the child that an arriving one is taken for, or the length of the list: the
      comparison stops at the end of the stored address. */
  function Known(cs: seq<Child>, mac: seq<byte>): (i: nat)
    ensures i <= |cs| && (i < |cs| ==> cs[i].mac <= mac)
    ensures forall j :: 0 <= j < i ==> !(cs[j].mac <= mac)
  {
    if cs == [] || cs[0].mac <= mac then 0 else Known(cs[1..], mac) + 1
  }

  /** updateChild: the first child with the id is online again. */
  function Update(cs: seq<Child>, id: nat): seq<Child> {
    var i := Place(cs, id);
    if i < |cs| then cs[i := cs[i].(online := true, timeout := 0)] else cs
  }

  /** addOrUpdateChild: a known child takes over id and state but keeps its counter; an unknown one
      goes to the end of the list. */
  function AddOrUpdate(cs: seq<Child>, c: Child): seq<Child> {
    var i := Known(cs, c.mac);
    if i < |cs| then cs[i := cs[i].(id := c.id, online := c.online)] else cs + [c]
  }

  /** deleteRadio: the first child with the id is unlinked. */
  function Delete(cs: seq<Child>, id: nat): seq<Child> {
    var i := Place(cs, id);
    if i < |cs| then cs[..i] + cs[i + 1..] else cs
  }

  /** editRadio: the first child with the id gets another address. */
  function Readdress(cs: seq<Child>, id: nat, mac: seq<byte>): seq<Child> {
    var i := Place(cs, id);
    if i < |cs| then cs[i := cs[i].(mac := mac)] else cs
  }

  /** The address after `str` has been copied over it; `behind` is what lies behind the stored one. */
  function Overwritten(mac: seq<byte>, str: seq<byte>, behind: seq<byte>): seq<byte> {
    if |str| <= |mac| then str + mac[|str|..] else str + behind
  }

  class MainNode {
    var children: seq<Child>
    var hbCount: nat
    /** The ids of the children probed so far. */
    var probes: seq<nat>

    /** A node with the children that its configuration file lists. */
    constructor (children: seq<Child>)
      ensures this.children == children && hbCount == 0 && probes == []
    {
      this.children, hbCount, probes := children, 0, [];
    }

    /** updateChild. */
    method UpdateChild(id: nat) returns (found: bool)
      modifies this`children
      ensures children == Update(old(children), id)
      ensures found <==> exists j :: 0 <= j < |old(children)| && old(children)[j].id == id
      ensures var i := Place(old(children), id);
              children == if found then old(children)[i := old(children)[i].(online := true, timeout := 0)]
                          else old(children)
    {
      var i := 0;
      while i < |children|
        invariant 0 <= i <= |children|
        invariant children == old(children)
        invariant forall j :: 0 <= j < i ==> children[j].id != id
      {
        if children[i].id == id {
          children := children[i := children[i].(online := true, timeout := 0)];
          return true;
        }
        i := i + 1;
      }
      return false;
    }

    /** addOrUpdateChild. */
    method AddOrUpdateChild(c: Child)
      modifies this`children
      ensures children == AddOrUpdate(old(children), c)
      ensures var i := Known(old(children), c.mac);
              children == if i < |old(children)|
                          then old(children)[i := old(children)[i].(id := c.id, online := c.online)]
                          else old(children) + [c]
    {
      if children == [] {
        children := [c];
        return;
      }
      var i := 0;
      while i < |children|
        invariant 0 <= i < |children|
        invariant children == old(children)
        invariant forall j :: 0 <= j < i ==> !(children[j].mac <= c.mac)
      {
        if children[i].mac <= c.mac {
          children := children[i := children[i].(id := c.id, online := c.online)];
          return;
        }
        if i + 1 == |children| {
          children := children + [c];
          return;
        }
        i := i + 1;
      }
    }

    /** editRadio. */
    method EditRadio(id: nat, str: seq<byte>, behind: seq<byte>) returns (found: bool)
      modifies this`children
      ensures found <==> exists j :: 0 <= j < |old(children)| && old(children)[j].id == id
      ensures children == if found
                          then Readdress(old(children), id,
                              Overwritten(old(children)[Place(old(children), id)].mac, str, behind))
                          else old(children)
      ensures |children| == |old(children)|
      ensures forall j :: 0 <= j < |children| ==>
                && children[j] == old(children)[j].(mac := children[j].mac)
                && (children[j].mac == old(children)[j].mac || j == Place(old(children), id))
                && (j == Place(old(children), id) ==>
                      && str <= children[j].mac
                      && (|str| <= |old(children)[j].mac| ==>
                            children[j].mac[|str|..] == old(children)[j].mac[|str|..]))
    {
      var i := 0;
      while i < |children|
        invariant 0 <= i <= |children|
        invariant children == old(children)
        invariant forall j :: 0 <= j < i ==> children[j].id != id
      {
        if children[i].id == id {
          children := children[i := children[i].(mac := Overwritten(children[i].mac, str, behind))];
          return true;
        }
        i := i + 1;
      }
      return false;
    }

    /** deleteRadio on a non-empty list. */
    method DeleteRadio(id: nat) returns (found: bool)
      requires children != []
      modifies this`children
      ensures children == Delete(old(children), id)
      ensures found <==> exists j :: 0 <= j < |old(children)| && old(children)[j].id == id
      ensures var i := Place(old(children), id);
              children == if found then old(children)[..i] + old(children)[i + 1..] else old(children)
    {
      if children[0].id == id {
        children := children[1..];
        return true;
      }
      var i := 0;
      while i + 1 < |children|
        invariant 0 <= i < |children|
        invariant children == old(children)
        invariant forall j :: 0 <= j <= i ==> children[j].id != id
      {
        if children[i + 1].id == id {
          children := children[..i + 1] + children[i + 2..];
          return true;
        }
        i := i + 1;
      }
      return false;
    }

    /** removeChild, for the child at position i. */
    method RemoveChild(i: nat)
      requires i < |children|
      modifies this`children
      ensures children == old(children)[..i] + old(children)[i + 1..]
    {
      children := children[..i] + children[i + 1..];
    }

    /** The heartbeat part of OnTimer. */
    method OnTimer()
      modifies this
      ensures old(hbCount) < 60 ==>
                hbCount == old(hbCount) + 1 && children == old(children) && probes == old(probes)
      ensures old(hbCount) >= 60 ==>
                hbCount == 0 && children == Round(old(children)).children
                    && probes == old(probes) + Round(old(children)).probed
    {
      if hbCount < 60 {
        hbCount := hbCount + 1;
        return;
      }
      hbCount := 0;
      BeatRound();
    }

    /** The loop over the child list. */
    method BeatRound()
      modifies this`children, this`probes
      ensures children == Round(old(children)).children && probes == old(probes) + Round(old(children)).probed
    {
      ghost var done, rest := [], children;
      ghost var goal := RoundResult(Round(children).children, probes + Round(children).probed);
      assert [] + Round(children).children == Round(children).children;
      var i := 0;
      while i < |children|
        invariant children == done + rest && i == |done|
        invariant Aging(done, probes, rest, goal)
        decreases |rest|
      {
        var c := children[i];
        assert c == rest[0] && rest == [c] + rest[1..];
        var older := c.(timeout := Ticked(c));
        ghost var offline := c.(online := false, timeout := 0);
        AgeOne(done, probes, c, rest[1..], goal);
        SetAt(done, c, rest[1..], older);
        SetAt(done, older, rest[1..], offline);
        SetAt(done, offline, rest[1..], offline);
        if !c.online {
          probes := probes + [c.id];
        }
        children := children[i := older];
        if children[i].timeout > LIMIT {
          if !children[i].online {
            RemoveChild(i);
            return;
          }
          children := children[i := c.(online := false, timeout := 0)];
        }
        done, rest := done + [children[i]], rest[1..];
        i := i + 1;
      }
      assert done + [] == done && probes + [] == probes && rest == [];
    }
  }

  /** The round has turned the front of the list into `done` and still has `rest` to go through. */
  ghost predicate Aging(done: seq<Child>, sent: seq<nat>, rest: seq<Child>, goal: RoundResult) {
    done + Round(rest).children == goal.children && sent + Round(rest).probed == goal.probed
  }

  lemma SetAt(done: seq<Child>, c: Child, rest: seq<Child>, d: Child)
    ensures var s := done + ([c] + rest);
            && s[|done|] == c
            && s[|done| := d] == done + ([d] + rest)
            && s[..|done|] + s[|done| + 1..] == done + rest
            && s == (done + [c]) + rest
  {
  }

  lemma AgeOne(done: seq<Child>, sent: seq<nat>, c: Child, rest: seq<Child>, goal: RoundResult)
    requires Aging(done, sent, [c] + rest, goal)
    ensures var sent' := if c.online then sent else sent + [c.id];
            if Drops(c) then done + rest == goal.children && sent' == goal.probed
            else Aging(done + [Aged(c)], sent', rest, goal)
  {
    assert ([c] + rest)[1..] == rest;
    var probe := if c.online then [] else [c.id];
    assert sent + probe == if c.online then sent else sent + [c.id];
    assert sent + (probe + Round(rest).probed) == sent + probe + Round(rest).probed;
  }

  // ---------- one round ----------

  /** The place of the child that a round drops, or the length of the list. */
  function DropPlace(cs: seq<Child>): (k: nat)
    ensures k <= |cs| && (k < |cs| ==> Drops(cs[k]))
    ensures forall j :: 0 <= j < k ==> !Drops(cs[j])
  {
    if cs == [] || Drops(cs[0]) then 0 else DropPlace(cs[1..]) + 1
  }

  /** The children that are probed when a round reaches the first n. */
  function OfflineIds(cs: seq<Child>, n: nat): seq<nat>
    requires n <= |cs|
  {
    if n == 0 then [] else (if cs[0].online then [] else [cs[0].id]) + OfflineIds(cs[1..], n - 1)
  }

  /** The counter has gone up by one; past 3 it starts again and the child is offline. Nothing else differs. */
  ghost predicate OneOlder(c: Child, d: Child) {
    var n := (c.timeout as int + 1) % 256;
    d.mac == c.mac && d.id == c.id
    && if n > 3 then !d.online && d.timeout == 0 else d.online == c.online && d.timeout == n
  }

  /** At most one child is dropped in a round. Those in front of it have been aged, those behind it
      are as they were, and all keep their order; probed are the offline ones up to it. */
  lemma {:induction false} RoundDropsAtMostOne(cs: seq<Child>)
    ensures var k, r := DropPlace(cs), Round(cs).children;
            && k <= |cs| && |r| == (if k < |cs| then |cs| - 1 else |cs|)
            && (forall i :: 0 <= i < k ==> cs[i].online || (cs[i].timeout as int + 1) % 256 <= 3)
            && (k < |cs| ==> !cs[k].online && (cs[k].timeout as int + 1) % 256 > 3)
            && (forall i :: 0 <= i < k ==> OneOlder(cs[i], r[i]))
            && (forall i :: k <= i < |r| ==> r[i] == cs[i + 1])
    ensures Round(cs).probed == OfflineIds(cs, if DropPlace(cs) < |cs| then DropPlace(cs) + 1 else |cs|)
    decreases |cs|
  {
    if cs != [] && !Drops(cs[0]) {
      RoundDropsAtMostOne(cs[1..]);
    } else if cs != [] {
      assert OfflineIds(cs[1..], 0) == [];
    }
  }

  // ---------- the life of one child ----------

  /** A heartbeat round, a sign of life, an arriving child, or a request to edit or delete a child;
      an edit may leave any address behind. */
  datatype Event = Beat | Alive(id: nat) | Arrive(child: Child) | Edit(id: nat, mac: seq<byte>) | Remove(id: nat)

  /** What a discovery reply brings (lines 887-922). */
  function Discovered(mac: seq<byte>, id: nat): Event {
    Arrive(Child(mac, id, true, 0))
  }

  /** What a request to add a child brings (lines 407-427). */
  function Added(mac: seq<byte>): Event {
    Arrive(Child(mac, 0, false, 0))
  }

  function Apply(cs: seq<Child>, e: Event): seq<Child> {
    match e
    case Beat => Round(cs).children
    case Alive(id) => Update(cs, id)
    case Arrive(c) => AddOrUpdate(cs, c)
    case Edit(id, mac) => Readdress(cs, id, mac)
    case Remove(id) => Delete(cs, id)
  }

  /** Where a child of the list is after an event. */
  datatype Fate = At(i: nat) | TimedOut | Deleted

  function Follow(cs: seq<Child>, e: Event, i: nat): Fate
    requires i < |cs|
  {
    var k := match e case Beat => DropPlace(cs) case Remove(id) => Place(cs, id) case _ => |cs|;
    if i < k then At(i) else if i > k then At(i - 1) else if e.Beat? then TimedOut else Deleted
  }

  lemma StaysListed(cs: seq<Child>, e: Event, i: nat)
    requires i < |cs|
    ensures Follow(cs, e, i).At? ==> Follow(cs, e, i).i < |Apply(cs, e)|
  {
    RoundDropsAtMostOne(cs);
  }

  /** The event probes child i. */
  predicate Probes(cs: seq<Child>, e: Event, i: nat)
    requires i < |cs|
  {
    e.Beat? && i <= DropPlace(cs) && !cs[i].online
  }

  /** The event sets child i offline without a round: a request to add it once more. */
  predicate SetsBack(cs: seq<Child>, e: Event, i: nat)
    requires i < |cs|
  {
    e.Arrive? && Known(cs, e.child.mac) == i && !e.child.online
  }

  /** The life of a child over a run: its fate, and, up to then, the rounds, the probes sent to it,
      and how often it was set back. */
  datatype Life = Life(fate: Fate, rounds: nat, probes: nat, setbacks: nat)

  function LifeOf(cs: seq<Child>, es: seq<Event>, i: nat): Life
    requires i < |cs|
    decreases |es|
  {
    if es == [] then Life(At(i), 0, 0, 0)
    else
      var e := es[0];
      var later := match Follow(cs, e, i)
        case At(j) => (StaysListed(cs, e, i); LifeOf(Apply(cs, e), es[1..], j))
        case f => Life(f, 0, 0, 0);
      Life(later.fate,
           later.rounds + if e.Beat? then 1 else 0,
           later.probes + if Probes(cs, e, i) then 1 else 0,
           later.setbacks + if SetsBack(cs, e, i) then 1 else 0)
  }

  /** How far the counter is from the limit; a counter of 255 wraps around at the next round. */
  function Level(c: Child): int {
    if c.timeout == 255 then -1 else if c.timeout > LIMIT then LIMIT else c.timeout
  }

  /** The rounds behind a child, of the 8 that lead from a sign of life to its drop. */
  function Age(c: Child): int {
    Level(c) + if c.online then 0 else LIMIT + 1
  }

  function Clip(n: int): nat {
    if n < 0 then 0 else n
  }

  /** The probes behind an offline child. */
  function Probed(c: Child): nat {
    if c.online then 0 else Clip(Level(c))
  }

  /** A child of the list after an event that leaves it there. */
  function After(cs: seq<Child>, e: Event, i: nat): Child
    requires i < |cs|
  {
    match e
    case Beat => if i < DropPlace(cs) then Aged(cs[i]) else cs[i]
    case Alive(id) => if Place(cs, id) == i then cs[i].(online := true, timeout := 0) else cs[i]
    case Arrive(c) => if Known(cs, c.mac) == i then cs[i].(id := c.id, online := c.online) else cs[i]
    case Edit(id, mac) => if Place(cs, id) == i then cs[i].(mac := mac) else cs[i]
    case Remove(id) => cs[i]
  }

  /** Following a child by its place follows the same child. */
  lemma FollowedIs(cs: seq<Child>, e: Event, i: nat)
    requires i < |cs|
    ensures Follow(cs, e, i).At? ==>
              Follow(cs, e, i).i < |Apply(cs, e)| && Apply(cs, e)[Follow(cs, e, i).i] == After(cs, e, i)
    ensures Follow(cs, e, i).TimedOut? ==> Drops(cs[i])
  {
    match e
    case Beat => RoundDropsAtMostOne(cs);
    case Remove(id) =>
      if i != Place(cs, id) {
        RestAfterDelete(cs, id, i);
      }
    case Alive(_) =>
    case Arrive(_) =>
    case Edit(_, _) =>
  }

  lemma RestAfterDelete(cs: seq<Child>, id: nat, i: nat)
    requires i < |cs| && i != Place(cs, id)
    ensures var j := if i < Place(cs, id) then i else i - 1;
            j < |Delete(cs, id)| && Delete(cs, id)[j] == cs[i]
  {
  }

  /** The probes counted for a child are probes that the round sends. */
  lemma ProbesAreSent(cs: seq<Child>, i: nat)
    requires i < |cs| && Probes(cs, Beat, i)
    ensures cs[i].id in Round(cs).probed
  {
    RoundDropsAtMostOne(cs);
    OfflineIsProbed(cs, if DropPlace(cs) < |cs| then DropPlace(cs) + 1 else |cs|, i);
  }

  lemma {:induction false} OfflineIsProbed(cs: seq<Child>, n: nat, i: nat)
    requires i < n <= |cs| && !cs[i].online
    ensures cs[i].id in OfflineIds(cs, n)
    decreases n
  {
    if i > 0 {
      OfflineIsProbed(cs[1..], n - 1, i - 1);
    }
  }

  /** A round that reaches a child and does not drop it makes it one round older. */
  lemma AgedIsOlder(c: Child)
    ensures if Drops(c) then !c.online && Age(c) == 7 && Probed(c) == 3
            else Age(Aged(c)) == Age(c) + 1 && Probed(Aged(c)) <= Probed(c) + if c.online then 0 else 1
  {
  }

  lemma AgesInPlace(cs: seq<Child>, e: Event, i: nat)
    requires i < |cs| && Follow(cs, e, i).At?
    ensures var rounds, back := if e.Beat? then 1 else 0, if SetsBack(cs, e, i) then 1 else 0;
            && Clip(Age(After(cs, e, i))) <= Clip(Age(cs[i])) + rounds + 4 * back
            && Probed(After(cs, e, i)) <= Probed(cs[i]) + (if Probes(cs, e, i) then 1 else 0) + 3 * back
  {
    if e.Beat? {
      AgedIsOlder(cs[i]);
    }
  }

  /** One event makes a child older by at most one round, or by at most 4 when it is set back; it
      is dropped only at age 7, while it is probed. */
  lemma AgesSlowly(cs: seq<Child>, e: Event, i: nat)
    requires i < |cs|
    ensures var f := Follow(cs, e, i);
            var rounds, back := if e.Beat? then 1 else 0, if SetsBack(cs, e, i) then 1 else 0;
            && (f.At? ==> f.i < |Apply(cs, e)|
                          && Clip(Age(Apply(cs, e)[f.i])) <= Clip(Age(cs[i])) + rounds + 4 * back
                          && Probed(Apply(cs, e)[f.i]) <= Probed(cs[i]) + (if Probes(cs, e, i) then 1 else 0)
                              + 3 * back)
            && (f.TimedOut? ==> Age(cs[i]) == 7 && Probed(cs[i]) == 3 && Probes(cs, e, i))
  {
    FollowedIs(cs, e, i);
    if Follow(cs, e, i).At? {
      AgesInPlace(cs, e, i);
    } else if Follow(cs, e, i).TimedOut? {
      AgedIsOlder(cs[i]);
    }
  }

  /** In every run from every list of children, whatever their states and counters: a round drops
      a child only when its age at the beginning, the rounds since then, and 4 for every time it was
      set back, make 8 or more; and the probes, with 3 for every time, make 4 or more. */
  lemma {:induction false} DropTakesAge(cs: seq<Child>, es: seq<Event>, i: nat)
    requires i < |cs| && LifeOf(cs, es, i).fate.TimedOut?
    ensures var l := LifeOf(cs, es, i);
            && Clip(Age(cs[i])) + l.rounds + 4 * l.setbacks >= 8
            && Probed(cs[i]) + l.probes + 3 * l.setbacks >= 4
    decreases |es|
  {
    var e := es[0];
    AgesSlowly(cs, e, i);
    FollowedIs(cs, e, i);
    match Follow(cs, e, i)
    case At(j) => DropTakesAge(Apply(cs, e), es[1..], j);
    case _ =>
  }

  /** So a child that gave a sign of life, and is not set back afterwards, is dropped no earlier than
      in the 8th round from there, after at least 4 probes. */
  lemma DroppedOnlyAfterEightRounds(cs: seq<Child>, id: nat, es: seq<Event>)
    requires Place(cs, id) < |cs|
    ensures var l := LifeOf(Update(cs, id), es, Place(cs, id));
            l.fate.TimedOut? && l.setbacks == 0 ==> l.rounds >= 8 && l.probes >= 4
  {
    var i := Place(cs, id);
    if LifeOf(Update(cs, id), es, i).fate.TimedOut? {
      DropTakesAge(Update(cs, id), es, i);
    }
  }

  function Beats(n: nat): (es: seq<Event>)
    ensures |es| == n && forall i :: 0 <= i < n ==> es[i] == Beat
  {
    seq(n, _ => Beat)
  }

  /** The bound is met: the child at the front of the list, left alone, is dropped in exactly the
      round that its age says. */
  lemma {:induction false} FrontChildAges(cs: seq<Child>, n: nat)
    requires cs != [] && n == 8 - Age(cs[0])
    ensures LifeOf(cs, Beats(n), 0).fate == TimedOut
    ensures LifeOf(cs, Beats(n), 0).rounds == n && LifeOf(cs, Beats(n), 0).setbacks == 0
    decreases n
  {
    assert Beats(n)[1..] == Beats(n - 1);
    if !Drops(cs[0]) {
      FollowedIs(cs, Beat, 0);
      FrontChildAges(Round(cs).children, n - 1);
    }
  }

  /** From here, no run drops the child before the 8th round without setting it back. */
  ghost predicate KeepsBound(c: Child) {
    forall cs: seq<Child>, es: seq<Event>, i: nat :: BoundIn(c, cs, es, i)
  }

  ghost predicate BoundIn(c: Child, cs: seq<Child>, es: seq<Event>, i: nat) {
    i < |cs| && cs[i] == c ==>
      var l := LifeOf(cs, es, i);
      l.fate.TimedOut? && l.setbacks == 0 ==> l.rounds >= 8
  }

  lemma BoundByAge(c: Child)
    ensures KeepsBound(c) <==> Age(c) <= 0
  {
    if Age(c) <= 0 {
      forall cs: seq<Child>, es: seq<Event>, i: nat ensures BoundIn(c, cs, es, i) {
        if i < |cs| && cs[i] == c && LifeOf(cs, es, i).fate.TimedOut? {
          DropTakesAge(cs, es, i);
        }
      }
    } else {
      FrontChildAges([c], 8 - Age(c));
      assert !BoundIn(c, [c], Beats(8 - Age(c)), 0);
    }
  }

  /** Age 0 in terms of state and counter. */
  lemma YoungestAges(c: Child)
    ensures Age(c) <= 0 <==> c.online && (c.timeout == 0 || c.timeout == 255)
  {
  }

  lemma ArrivedIs(cs: seq<Child>, c: Child) returns (d: Child)
    requires Known(cs, c.mac) < |cs|
    ensures |Apply(cs, Arrive(c))| == |cs| && d == Apply(cs, Arrive(c))[Known(cs, c.mac)]
    ensures d.online == c.online && d.timeout == cs[Known(cs, c.mac)].timeout
  {
    d := Apply(cs, Arrive(c))[Known(cs, c.mac)];
  }

  /** A known child that arrives again keeps its counter. It is safe for 8 rounds, as a new one is,
      if and only if it arrives online and that counter is 0, or 255 and about to wrap around. */
  lemma ArrivalKeepsBound(cs: seq<Child>, c: Child)
    requires Known(cs, c.mac) < |cs|
    ensures var i := Known(cs, c.mac);
            KeepsBound(Apply(cs, Arrive(c))[i]) <==> c.online && (cs[i].timeout == 0 || cs[i].timeout == 255)
  {
    var d := ArrivedIs(cs, c);
    YoungestAges(d);
    BoundByAge(d);
  }

  /** So a discovery keeps the bound exactly when the kept counter is 0 or 255. */
  lemma RediscoveredKeepsBound(cs: seq<Child>, mac: seq<byte>, id: nat)
    requires Known(cs, mac) < |cs|
    ensures var i := Known(cs, mac);
            KeepsBound(Apply(cs, Discovered(mac, id))[i]) <==> cs[i].timeout == 0 || cs[i].timeout == 255
  {
    ArrivalKeepsBound(cs, Child(mac, id, true, 0));
  }

  /** A request to add a child never does, be it known or new. */
  lemma AddedLosesBound(cs: seq<Child>, mac: seq<byte>)
    ensures var i, r := Known(cs, mac), Apply(cs, Added(mac));
            && i < |r| && !KeepsBound(r[i])
            && Age(r[i]) == 4 + (if i < |cs| then Level(cs[i]) else 0)
  {
    BoundByAge(Apply(cs, Added(mac))[Known(cs, mac)]);
  }

  /** Left alone at the front of the list, the added child is dropped after at most 5 rounds. */
  lemma AddedIsDroppedEarly(cs: seq<Child>, mac: seq<byte>, n: nat)
    requires Known(cs, mac) == 0 && n == 8 - Age(Apply(cs, Added(mac))[0])
    ensures var l := LifeOf(Apply(cs, Added(mac)), Beats(n), 0);
            n <= 5 && l.fate == TimedOut && l.rounds == n
  {
    FrontChildAges(Apply(cs, Added(mac)), n);
  }

  /** A child discovered for the first time is safe for 8 rounds. */
  lemma NewKeepsBound(cs: seq<Child>, mac: seq<byte>, id: nat)
    requires Known(cs, mac) == |cs|
    ensures var r := Apply(cs, Discovered(mac, id));
            |r| == |cs| + 1 && r[|cs|] == Child(mac, id, true, 0) && KeepsBound(r[|cs|])
  {
    BoundByAge(Child(mac, id, true, 0));
  }

  // ---------- timer ticks ----------

  /** The counter and the rounds made after n timer ticks. */
  function Ticks(hbCount: nat, n: nat): (nat, nat) {
    if n == 0 then (hbCount, 0)
    else
      var (h, rounds) := Ticks(hbCount, n - 1);
      if h < TICKS_PER_ROUND then (h + 1, rounds) else (0, rounds + 1)
  }

  /** A round happens at every 61st tick. */
  lemma {:induction false} RoundsInTicks(hbCount: nat, n: nat)
    requires hbCount <= TICKS_PER_ROUND
    ensures Ticks(hbCount, n) == ((hbCount + n) % 61, (hbCount + n) / 61)
  {
    if n > 0 {
      RoundsInTicks(hbCount, n - 1);
    }
  }
}
