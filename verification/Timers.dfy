/** The timer list of src/kernel/timer.c: sorted by expiry, equal expiries in the
    order they were armed, drained once per tick. */
module Timers {
  import opened Links

  // ----- a node in the middle of a list -----

  function Put(s: seq<nat>, k: nat, x: nat): seq<nat>
    requires k <= |s|
  {
    s[..k] + [x] + s[k..]
  }

  lemma PutFacts(s: seq<nat>, k: nat, x: nat)
    requires k <= |s| && Unique(s) && x !in s
    ensures |Put(s, k, x)| == |s| + 1 && Unique(Put(s, k, x))
    ensures forall i :: 0 <= i <= |s| ==> Put(s, k, x)[i] == if i < k then s[i] else if i == k then x else s[i - 1]
    ensures forall y :: y in Put(s, k, x) <==> y == x || y in s
  {
    var t := Put(s, k, x);
    assert t[k] == x;
    forall y | y in s ensures y in t {
      var i :| 0 <= i < |s| && s[i] == y;
      assert t[if i < k then i else i + 1] == y;
    }
  }

  lemma ForwardPut(next: seq<int>, head: int, s: seq<nat>, k: nat, x: nat, now: seq<int>, head': int)
    requires Forward(next, head, s) && Unique(s) && k <= |s| && x < |next| && x !in s && |now| == |next|
    requires now[x] == (if k < |s| then s[k] else -1)
    requires if k == 0 then head' == x else head' == head && now[s[k - 1]] == x
    requires forall y :: 0 <= y < |next| && y != x && (k == 0 || y != s[k - 1]) ==> now[y] == next[y]
    ensures Forward(now, head', Put(s, k, x))
  {
    PutFacts(s, k, x);
    var t := Put(s, k, x);
    forall i | 0 <= i < |t| ensures t[i] < |now| && now[t[i]] == After(t, i) {
      if i != k {
        var j := if i < k then i else i - 1;
        assert t[i] == s[j] && next[s[j]] == After(s, j);
        if k > 0 && j != k - 1 { Different(s, j, k - 1); }
      }
    }
  }

  // ----- the order of expiry -----

  ghost predicate Sooner(expires: seq<nat>, stamp: seq<nat>, a: nat, b: nat) {
    && a < |expires| == |stamp| && b < |expires|
    && (expires[a] < expires[b] || (expires[a] == expires[b] && stamp[a] < stamp[b]))
  }

  ghost predicate Sorted(s: seq<nat>, expires: seq<nat>, stamp: seq<nat>) {
    forall i, j :: 0 <= i < j < |s| ==> Sooner(expires, stamp, s[i], s[j])
  }

  lemma SortedCut(s: seq<nat>, expires: seq<nat>, stamp: seq<nat>, k: nat)
    requires Sorted(s, expires, stamp) && k < |s| && Unique(s)
    ensures Sorted(Cut(s, k), expires, stamp)
  {
    CutFacts(s, k);
  }

  /** The fields of a timer that is not listed do not matter. */
  lemma SortedOther(s: seq<nat>, expires: seq<nat>, stamp: seq<nat>, x: nat, e: nat, c: nat)
    requires Sorted(s, expires, stamp) && x !in s && x < |expires| == |stamp|
    ensures Sorted(s, expires[x := e], stamp[x := c])
  {
    forall i, j | 0 <= i < j < |s| ensures Sooner(expires[x := e], stamp[x := c], s[i], s[j]) {
      assert Sooner(expires, stamp, s[i], s[j]) && s[i] in s && s[j] in s;
    }
  }

  lemma SortedPut(s: seq<nat>, expires: seq<nat>, stamp: seq<nat>, k: nat, x: nat)
    requires Sorted(s, expires, stamp) && Unique(s) && x !in s && x < |expires| == |stamp| && k <= |s|
    requires forall i :: 0 <= i < |s| ==> s[i] < |expires| && stamp[s[i]] < stamp[x]
    requires forall i :: 0 <= i < k ==> expires[s[i]] <= expires[x]
    requires k < |s| ==> expires[s[k]] > expires[x]
    ensures Sorted(Put(s, k, x), expires, stamp)
  {
    PutFacts(s, k, x);
    var t := Put(s, k, x);
    forall i, j | 0 <= i < j < |t| ensures Sooner(expires, stamp, t[i], t[j]) {
      if i == k {
        assert t[j] == s[j - 1];
        if j - 1 > k { assert Sooner(expires, stamp, s[k], s[j - 1]); }
      } else if j == k {
        assert t[i] == s[i];
      } else {
        assert Sooner(expires, stamp, s[if i < k then i else i - 1], s[if j < k then j else j - 1]);
      }
    }
  }

  // ----- lists of timers as values -----

  ghost predicate Fits(s: seq<nat>, n: nat) { forall i :: 0 <= i < |s| ==> s[i] < n }

  /** All but one timer. */
  ghost function Without(s: seq<nat>, x: nat): seq<nat> {
    if s == [] then [] else (if s[0] == x then [] else [s[0]]) + Without(s[1..], x)
  }

  lemma {:induction false} WithoutIs(s: seq<nat>, x: nat)
    ensures x !in Without(s, x) && forall y :: y in Without(s, x) <==> y in s && y != x
    ensures x !in s ==> Without(s, x) == s
  {
    if s != [] {
      WithoutIs(s[1..], x);
      assert s == [s[0]] + s[1..];
    }
  }

  lemma {:induction false} WithoutFits(s: seq<nat>, x: nat, n: nat)
    requires Fits(s, n)
    ensures Fits(Without(s, x), n)
  {
    if s != [] { WithoutFits(s[1..], x, n); }
  }

  lemma {:induction false} CutWithout(s: seq<nat>, k: nat)
    requires Unique(s) && k < |s|
    ensures Cut(s, k) == Without(s, s[k])
  {
    if k == 0 {
      assert s[0] !in s[1..];
      WithoutIs(s[1..], s[0]);
      assert Cut(s, 0) == s[1..];
    } else {
      CutWithout(s[1..], k - 1);
      assert s[1..][k - 1] == s[k] && s[0] != s[k];
      assert Cut(s, k) == [s[0]] + Cut(s[1..], k - 1);
    }
  }

  /** A timer placed behind every one that expires no later. */
  ghost function Placed(s: seq<nat>, expires: seq<nat>, x: nat): seq<nat>
    requires x < |expires| && Fits(s, |expires|)
  {
    if s == [] || expires[s[0]] > expires[x] then [x] + s else [s[0]] + Placed(s[1..], expires, x)
  }

  lemma {:induction false} PutPlaced(s: seq<nat>, expires: seq<nat>, x: nat, k: nat)
    requires x < |expires| && Fits(s, |expires|) && k <= |s|
    requires forall i :: 0 <= i < k ==> expires[s[i]] <= expires[x]
    requires k < |s| ==> expires[s[k]] > expires[x]
    ensures Put(s, k, x) == Placed(s, expires, x)
  {
    if k > 0 {
      PutPlaced(s[1..], expires, x, k - 1);
      assert Put(s, k, x) == [s[0]] + Put(s[1..], k - 1, x);
    } else {
      assert Put(s, 0, x) == [x] + s;
    }
  }

  /** The timers of a list that are due, in their order. */
  ghost function Due(s: seq<nat>, expires: seq<nat>, now: nat): seq<nat>
    requires Fits(s, |expires|)
  {
    if s == [] then [] else (if expires[s[0]] <= now then [s[0]] else []) + Due(s[1..], expires, now)
  }

  lemma {:induction false} DueWithout(s: seq<nat>, expires: seq<nat>, now: nat, x: nat)
    requires Fits(s, |expires|)
    ensures Fits(Without(s, x), |expires|)
    ensures Due(Without(s, x), expires, now) == Without(Due(s, expires, now), x)
  {
    WithoutFits(s, x, |expires|);
    if s != [] {
      DueWithout(s[1..], expires, now, x);
      var rest, due := Without(s[1..], x), Due(s[1..], expires, now);
      assert ([s[0]] + rest)[1..] == rest && ([s[0]] + due)[1..] == due;
      assert [] + rest == rest && [] + due == due && [] + Without(due, x) == Without(due, x);
      if s[0] != x && expires[s[0]] <= now {
        assert Without([s[0]] + due, x) == [s[0]] + Without(due, x);
      }
    }
  }

  /** A timer that is not due, placed anywhere, changes nothing. */
  lemma {:induction false} DuePlaced(s: seq<nat>, expires: seq<nat>, now: nat, x: nat)
    requires Fits(s, |expires|) && x < |expires| && expires[x] > now
    ensures Fits(Placed(s, expires, x), |expires|)
    ensures Due(Placed(s, expires, x), expires, now) == Due(s, expires, now)
  {
    if s == [] || expires[s[0]] > expires[x] {
      assert ([x] + s)[1..] == s;
    } else {
      DuePlaced(s[1..], expires, now, x);
      var rest := Placed(s[1..], expires, x);
      assert ([s[0]] + rest)[1..] == rest;
    }
  }

  lemma {:induction false} DueOther(s: seq<nat>, expires: seq<nat>, now: nat, x: nat, e: nat)
    requires Fits(s, |expires|) && x !in s && x < |expires|
    ensures Due(s, expires[x := e], now) == Due(s, expires, now)
  {
    if s != [] {
      assert s[0] in s;
      DueOther(s[1..], expires, now, x, e);
    }
  }

  lemma {:induction false} DueIs(s: seq<nat>, expires: seq<nat>, now: nat)
    requires Fits(s, |expires|)
    ensures forall y :: y in Due(s, expires, now) <==> y in s && expires[y] <= now
  {
    if s != [] {
      DueIs(s[1..], expires, now);
      assert s == [s[0]] + s[1..];
    }
  }

  // ----- the state as a value -----

  /** The listed timers in order, and the fields of all. */
  datatype Clock = Clock(order: seq<nat>, expires: seq<nat>, active: seq<bool>, stamp: seq<nat>, armings: nat)

  ghost predicate InRanges(c: Clock) {
    |c.expires| == |c.active| == |c.stamp| && Fits(c.order, |c.expires|)
  }

  ghost function Stopped(c: Clock, t: nat): Clock
    requires InRanges(c) && t < |c.active|
  {
    c.(order := Without(c.order, t), active := c.active[t := false])
  }

  ghost function Scheduled(c: Clock, t: nat, ticks: nat, now: nat): Clock
    requires InRanges(c) && t < |c.active|
  {
    WithoutFits(c.order, t, |c.expires|);
    var e := c.expires[t := now + if ticks == 0 then 1 else ticks];
    Clock(Placed(Without(c.order, t), e, t), e, c.active[t := true], c.stamp[t := c.armings], c.armings + 1)
  }

  /** What a callback may do: arm or stop any timers. */
  datatype Op = Arm(t: nat, ticks: nat) | Stop(t: nat)

  ghost function Effect(c: Clock, op: Op, now: nat): (d: Clock)
    requires InRanges(c)
    ensures InRanges(d) && |d.active| == |c.active|
  {
    if op.t >= |c.active| then c
    else
      WithoutFits(c.order, op.t, |c.expires|);
      match op
      case Arm(t, ticks) =>
        PlacedFits(Without(c.order, t), c.expires[t := now + if ticks == 0 then 1 else ticks], t);
        Scheduled(c, t, ticks, now)
      case Stop(t) => Stopped(c, t)
  }

  lemma {:induction false} PlacedFits(s: seq<nat>, expires: seq<nat>, x: nat)
    requires x < |expires| && Fits(s, |expires|)
    ensures Fits(Placed(s, expires, x), |expires|)
  {
    if s != [] && expires[s[0]] <= expires[x] { PlacedFits(s[1..], expires, x); }
  }

  ghost function Effects(c: Clock, ops: seq<Op>, now: nat): (d: Clock)
    requires InRanges(c)
    ensures InRanges(d) && |d.active| == |c.active|
    decreases |ops|
  {
    if ops == [] then c else Effect(Effects(c, ops[..|ops| - 1], now), ops[|ops| - 1], now)
  }

  /** Timers taken off one after the other, each with its callback. */
  ghost function Drained(c: Clock, fired: seq<nat>, callback: nat -> seq<Op>, now: nat): (d: Clock)
    requires InRanges(c) && Fits(fired, |c.active|)
    ensures InRanges(d) && |d.active| == |c.active|
    decreases |fired|
  {
    if fired == [] then c
    else
      var t := fired[|fired| - 1];
      var before := Drained(c, fired[..|fired| - 1], callback, now);
      WithoutFits(before.order, t, |before.expires|);
      Effects(Stopped(before, t), callback(t), now)
  }

  /** The timers of a list that no operation names. */
  ghost function Spared(s: seq<nat>, ops: seq<Op>): seq<nat>
    decreases |ops|
  {
    if ops == [] then s else Without(Spared(s, ops[..|ops| - 1]), ops[|ops| - 1].t)
  }

  lemma {:induction false} SparedIs(s: seq<nat>, ops: seq<Op>)
    ensures forall y :: y in Spared(s, ops) <==> y in s && forall k :: 0 <= k < |ops| ==> ops[k].t != y
    ensures |Spared(s, ops)| <= |s|
    decreases |ops|
  {
    if ops != [] {
      var n := |ops| - 1;
      SparedIs(s, ops[..n]);
      WithoutIs(Spared(s, ops[..n]), ops[n].t);
      WithoutShort(Spared(s, ops[..n]), ops[n].t);
    }
  }

  lemma {:induction false} WithoutShort(s: seq<nat>, x: nat)
    ensures |Without(s, x)| <= |s|
  {
    if s != [] { WithoutShort(s[1..], x); }
  }

  /** Which of the due timers fire: each in its turn, unless a callback before it armed
      or stopped it. */
  ghost function Fires(due: seq<nat>, callback: nat -> seq<Op>): seq<nat>
    decreases |due|
  {
    if due == [] then []
    else
      SparedIs(due[1..], callback(due[0]));
      [due[0]] + Fires(Spared(due[1..], callback(due[0])), callback)
  }

  class Wheel {
    var head: int
    var next: seq<int>
    var expires: seq<nat>
    var active: seq<bool>
    /** The tick counter. */
    var now: nat
    ghost var order: seq<nat>
    /** When each timer was armed, as a count of armings. */
    ghost var stamp: seq<nat>
    ghost var armings: nat

    ghost predicate Valid()
      reads this
    {
      && |next| == |expires| == |active| == |stamp|
      && Forward(next, head, order) && Unique(order) && Sorted(order, expires, stamp)
      && (forall t :: 0 <= t < |active| ==> (active[t] <==> t in order))
      && (forall t :: 0 <= t < |stamp| ==> stamp[t] < armings)
    }

    constructor (n: nat)
      ensures Valid() && |active| == n && now == 0 && forall t :: 0 <= t < n ==> !active[t]
    {
      head, next, expires, active, now := -1, seq(n, _ => -1), seq(n, _ => 0), seq(n, _ => false), 0;
      order, stamp, armings := [], seq(n, _ => 0), 1;
    }

    ghost function Now(): Clock
      reads this
    {
      Clock(order, expires, active, stamp, armings)
    }

    /** timer_init, on a timer that is not listed. */
    method Init(t: nat)
      requires Valid() && t < |active| && !active[t]
      modifies this`expires, this`next, this`stamp
      ensures Valid() && expires == old(expires)[t := 0] && stamp == old(stamp)[t := 0]
    {
      hide Forward, Sorted, Unique;
      SortedOther(order, expires, stamp, t, 0, 0);
      assert stamp[t] < armings;
      expires, stamp := expires[t := 0], stamp[t := 0];
      next := next[t := -1];
      ForwardFrame(old(next), next, head, order);
    }

    /** timer_unlink_locked: follows the links until the one that names the timer. */
    method Unlink(t: nat)
      requires Valid() && t < |active| && active[t]
      modifies this`head, this`next, this`active, this`order
      ensures Valid() && active == old(active)[t := false] && order == Without(old(order), t)
    {
      hide Forward, Sorted, Unique;
      ghost var s := order;
      ghost var k :| 0 <= k < |s| && s[k] == t;
      var before, cur := -1, head;
      ghost var i := 0;
      At(next, head, s, 0);
      Ranges(next, head, s);
      while cur != t
        invariant 0 <= i <= k && cur == s[i] && before == Before(s, i)
        invariant next == old(next) && head == old(head) && active == old(active) && order == s
        decreases k - i
      {
        At(next, head, s, i);
        before, cur, i := cur, next[cur], i + 1;
      }
      if i != k { Different(s, i, k); }
      At(next, head, s, k);
      if k > 0 { Different(s, k - 1, k); }
      if before < 0 { head := next[t]; } else { next := next[before := next[t]]; }
      next := next[t := -1];
      active := active[t := false];
      ForwardCut(old(next), old(head), s, k, next, head);
      CutFacts(s, k);
      SortedCut(s, expires, stamp, k);
      CutWithout(s, k);
      order := Cut(s, k);
    }

    /** timer_cancel. */
    method Cancel(t: nat)
      requires Valid() && t < |active|
      modifies this`head, this`next, this`active, this`order
      ensures Valid() && active == old(active)[t := false] && order == Without(old(order), t) && t !in order
    {
      hide Forward, Sorted, Unique;
      WithoutIs(order, t);
      if active[t] { Unlink(t); } else { assert active == active[t := false]; }
    }

    /** timer_set: behind every timer that expires no later. */
    method Set(t: nat, delay: nat)
      requires Valid() && t < |active|
      modifies this`head, this`next, this`active, this`order, this`expires, this`stamp, this`armings
      ensures Valid() && old(InRanges(Now())) && Now() == Scheduled(old(Now()), t, delay, now)
    {
      hide Forward, Sorted, Unique;
      Ranges(next, head, order);
      var ticks := if delay == 0 then 1 else delay;
      Cancel(t);
      SortedOther(order, expires, stamp, t, now + ticks, armings);
      expires, stamp, armings := expires[t := now + ticks], stamp[t := armings], armings + 1;
      Insert(t);
    }

    method Insert(t: nat)
      requires Valid() && t < |active| && !active[t] && forall u :: 0 <= u < |stamp| && u != t ==> stamp[u] < stamp[t]
      modifies this`head, this`next, this`active, this`order
      ensures Valid() && active == old(active)[t := true]
      ensures Fits(old(order), |expires|) && order == Placed(old(order), expires, t)
    {
      hide Forward, Sorted, Unique, Placed, Put, Fits;
      ghost var s := order;
      Ranges(next, head, s);
      ghost var k;
      var before, cur;
      before, cur, k := Search(t);
      BeforeIn(next, head, s, k);
      Joined(next, head, s, k, t, expires, stamp);
      next := next[t := cur];
      if before < 0 { head := t; } else { next := next[before := t]; }
      active := active[t := true];
      order := Placed(s, expires, t);
    }

    /** The link behind every timer that expires no later. */
    method Search(t: nat) returns (before: int, cur: int, ghost k: nat)
      requires Valid() && t < |active| && Fits(order, |expires|)
      ensures k <= |order| && cur == (if k < |order| then order[k] else -1) && before == Before(order, k)
      ensures forall i :: 0 <= i < k ==> expires[order[i]] <= expires[t]
      ensures k < |order| ==> expires[order[k]] > expires[t]
    {
      hide Forward, Sorted, Unique;
      before, cur, k := -1, head, 0;
      AtHead(next, head, order);
      while cur >= 0 && expires[cur] <= expires[t]
        invariant 0 <= k <= |order| && cur == (if k < |order| then order[k] else -1) && cur < |expires|
        invariant before == Before(order, k)
        invariant forall i :: 0 <= i < k ==> expires[order[i]] <= expires[t]
        decreases |order| - k
      {
        At(next, head, order, k);
        before, cur, k := cur, next[cur], k + 1;
      }
    }

    /** The dequeue of timer_tick: the first timer, if it is due. */
    method Pop() returns (t: int)
      requires Valid()
      modifies this`head, this`next, this`active, this`order
      ensures Valid() && -1 <= t < |active|
      ensures t < 0 ==>
        active == old(active) && order == old(order) && forall u :: 0 <= u < |active| && active[u] ==> expires[u] > now
      ensures t >= 0 ==> old(active)[t] && expires[t] <= now && active == old(active)[t := false]
      ensures t >= 0 ==> old(order) == [t] + order
      ensures t >= 0 ==> forall u :: 0 <= u < |active| && active[u] ==> Sooner(expires, stamp, t, u)
    {
      hide Forward, Unique;
      AtHead(next, head, order);
      if head < 0 { return -1; }
      At(next, head, order, 0);
      if expires[head] > now {
        NoneDue(order, expires, stamp, now, active);
        return -1;
      }
      t := head;
      ghost var s := order;
      assert s[0] in s;
      head := next[t];
      next := next[t := -1];
      active := active[t := false];
      ForwardCut(old(next), old(head), s, 0, next, head);
      CutFacts(s, 0);
      SortedCut(s, expires, stamp, 0);
      order := Cut(s, 0);
      forall u | 0 <= u < |active| && active[u] ensures Sooner(expires, stamp, t, u) {
        var i :| 0 <= i < |order| && order[i] == u;
        assert u == s[i + 1];
      }
    }

    method Do(op: Op)
      requires Valid()
      modifies this`head, this`next, this`active, this`order, this`expires, this`stamp, this`armings
      ensures Valid() && old(InRanges(Now())) && Now() == Effect(old(Now()), op, now)
    {
      hide Forward, Sorted, Unique;
      Ranges(next, head, order);
      if op.t >= |active| { return; }
      match op
      case Arm(t, ticks) => Set(t, ticks);
      case Stop(t) => Cancel(t);
    }

    /** timer_tick: the due timers fire in the order of their list, which is the order
        of expiry and then of arming; a timer that a callback before it armed or
        stopped does not. Each is taken off once and its callback run. Callbacks may
        arm and stop any timers, their own too, and the tick still ends, with no due
        timer left. */
    method Tick(callback: nat -> seq<Op>) returns (fired: seq<nat>)
      requires Valid()
      modifies this`head, this`next, this`active, this`order, this`expires, this`stamp, this`armings
      ensures Valid() && old(InRanges(Now())) && fired == Fires(Due(old(order), old(expires), now), callback)
      ensures Fits(fired, |old(active)|) && Now() == Drained(old(Now()), fired, callback, now)
      ensures Sorted(fired, old(expires), old(stamp))
      ensures forall t :: 0 <= t < |active| && active[t] ==> expires[t] > now
    {
      hide Forward, Sorted, Unique, Due, Fires, Drained, Effects;
      fired := [];
      ghost var first := Now();
      Ranges(next, head, order);
      DueSorted(order, expires, stamp, now);
      FiresInOrder(Due(order, expires, now), callback, expires, stamp);
      NoneFired(first, callback, now);
      while true
        invariant Valid() && InRanges(Now()) && |active| == |first.active|
        invariant fired + Fires(Due(order, expires, now), callback)
          == Fires(Due(first.order, first.expires, now), callback)
        invariant Fits(fired, |first.active|) && Now() == Drained(first, fired, callback, now)
        decreases |Due(order, expires, now)|
      {
        ghost var was := Now();
        var t := Pop();
        if t < 0 {
          NothingDue(order, expires, now, callback, fired);
          return;
        }
        Taken(was, Now(), t);
        ghost var rest := Now();
        Callbacks(callback(t));
        OneFired(first, was, rest, Now(), t, fired, callback, now);
        fired := fired + [t];
      }
    }

    /** A callback, seen from the list. */
    method Callbacks(ops: seq<Op>)
      requires Valid()
      modifies this`head, this`next, this`active, this`order, this`expires, this`stamp, this`armings
      ensures Valid() && old(InRanges(Now())) && Now() == Effects(old(Now()), ops, now)
    {
      hide Forward, Sorted, Unique, Effect;
      Ranges(next, head, order);
      for k := 0 to |ops|
        invariant Valid() && Now() == Effects(old(Now()), ops[..k], now)
      {
        Do(ops[k]);
        assert ops[..k + 1][..k] == ops[..k];
      }
      assert ops[..|ops|] == ops;
    }
  }

  lemma Ranges(next: seq<int>, head: int, s: seq<nat>)
    requires Forward(next, head, s)
    ensures Fits(s, |next|)
  {
  }

  // ----- draining -----

  lemma NoneFired(c: Clock, callback: nat -> seq<Op>, now: nat)
    requires InRanges(c)
    ensures Drained(c, [], callback, now) == c
    ensures [] + Fires(Due(c.order, c.expires, now), callback) == Fires(Due(c.order, c.expires, now), callback)
  {
  }

  lemma NothingDue(order: seq<nat>, expires: seq<nat>, now: nat, callback: nat -> seq<Op>, fired: seq<nat>)
    requires Fits(order, |expires|) && forall y :: y in order ==> expires[y] > now
    ensures Due(order, expires, now) == [] && fired + Fires(Due(order, expires, now), callback) == fired
  {
    DueNone(order, expires, now);
    assert fired + [] == fired;
  }

  lemma {:induction false} DueNone(s: seq<nat>, expires: seq<nat>, now: nat)
    requires Fits(s, |expires|) && forall i :: 0 <= i < |s| ==> expires[s[i]] > now
    ensures Due(s, expires, now) == []
  {
    if s != [] { DueNone(s[1..], expires, now); }
  }

  lemma Taken(was: Clock, rest: Clock, t: nat)
    requires InRanges(was) && t < |was.active| && was.order == [t] + rest.order &&
      rest == was.(order := rest.order, active := was.active[t := false])
    requires t !in rest.order
    ensures rest == Stopped(was, t) && InRanges(rest)
  {
    assert was.order[1..] == rest.order;
    WithoutIs(rest.order, t);
    assert [] + rest.order == rest.order;
    forall y | y in rest.order ensures y in was.order { }
  }

  /** Operations leave of the due timers those they do not name. */
  lemma {:induction false} DueAfter(c: Clock, ops: seq<Op>, now: nat)
    requires InRanges(c)
    ensures var d := Effects(c, ops, now); Due(d.order, d.expires, now) == Spared(Due(c.order, c.expires, now), ops)
    decreases |ops|
  {
    hide Due, Without, Placed;
    if ops != [] {
      var n := |ops| - 1;
      DueAfter(c, ops[..n], now);
      DueOne(Effects(c, ops[..n], now), ops[n], now);
    }
  }

  lemma DueOne(c: Clock, op: Op, now: nat)
    requires InRanges(c)
    ensures var d := Effect(c, op, now); Due(d.order, d.expires, now) == Without(Due(c.order, c.expires, now), op.t)
  {
    hide Due, Without, Placed;
    DueIs(c.order, c.expires, now);
    WithoutIs(Due(c.order, c.expires, now), op.t);
    if op.t < |c.active| {
      DueWithout(c.order, c.expires, now, op.t);
      WithoutIs(c.order, op.t);
      if op.Arm? {
        var e := now + if op.ticks == 0 then 1 else op.ticks;
        DueOther(Without(c.order, op.t), c.expires, now, op.t, e);
        DuePlaced(Without(c.order, op.t), c.expires[op.t := e], now, op.t);
      }
    }
  }

  lemma DueFirst(was: seq<nat>, rest: seq<nat>, expires: seq<nat>, now: nat, t: nat)
    requires Fits(was, |expires|) && was == [t] + rest && expires[was[0]] <= now
    ensures Fits(rest, |expires|) && Due(was, expires, now) == [t] + Due(rest, expires, now)
  {
    assert was[1..] == rest;
  }

  lemma OneFired(first: Clock, was: Clock, rest: Clock, after: Clock, t: nat, fired: seq<nat>, callback: nat -> seq<Op>,
                 now: nat)
    requires InRanges(first) && InRanges(was) && InRanges(rest) && t < |was.active| == |first.active|
    requires was.expires[t] <= now
    requires rest == Stopped(was, t) && was.order == [t] + rest.order && after == Effects(rest, callback(t), now)
    requires Fits(fired, |first.active|) && was == Drained(first, fired, callback, now)
    ensures Fits(fired + [t], |first.active|) && after == Drained(first, fired + [t], callback, now)
    ensures |Due(after.order, after.expires, now)| < |Due(was.order, was.expires, now)|
    ensures fired + Fires(Due(was.order, was.expires, now), callback)
      == fired + [t] + Fires(Due(after.order, after.expires, now), callback)
  {
    hide Effects, Due, Fires, Spared, Drained, Stopped;
    DrainedMore(first, fired, callback, now, t);
    DueAfter(rest, callback(t), now);
    assert rest.expires == was.expires by { Kept(was, t); }
    DueFirst(was.order, rest.order, was.expires, now, t);
    SparedIs(Due(rest.order, rest.expires, now), callback(t));
    FiresMore(t, Due(rest.order, rest.expires, now), callback, fired);
  }

  lemma Kept(c: Clock, t: nat)
    requires InRanges(c) && t < |c.active|
    ensures Stopped(c, t).expires == c.expires
  {
  }

  lemma DrainedMore(first: Clock, fired: seq<nat>, callback: nat -> seq<Op>, now: nat, t: nat)
    requires InRanges(first) && Fits(fired, |first.active|) && t < |first.active|
    ensures Fits(fired + [t], |first.active|) && InRanges(Stopped(Drained(first, fired, callback, now), t))
    ensures Drained(first, fired + [t], callback, now)
      == Effects(Stopped(Drained(first, fired, callback, now), t), callback(t), now)
  {
    hide Effects, Without;
    assert (fired + [t])[..|fired|] == fired;
    WithoutFits(Drained(first, fired, callback, now).order, t, |first.active|);
  }

  lemma FiresMore(t: nat, due: seq<nat>, callback: nat -> seq<Op>, fired: seq<nat>)
    ensures fired + Fires([t] + due, callback) == fired + [t] + Fires(Spared(due, callback(t)), callback)
  {
    hide Spared;
    assert ([t] + due)[1..] == due;
    var more := Fires(Spared(due, callback(t)), callback);
    assert fired + ([t] + more) == fired + [t] + more;
  }

  // ----- what that means -----

  ghost predicate Mentions(ops: seq<Op>, t: nat) { exists k :: 0 <= k < |ops| && ops[k].t == t }

  /** A due timer fires if and only if no timer that fires before it arms or stops it. */
  lemma {:induction false} FiresExactly(due: seq<nat>, callback: nat -> seq<Op>, q: nat)
    requires Unique(due) && q < |due|
    ensures var f := Fires(due, callback);
      due[q] in f <==> !exists i :: 0 <= i < |f| && f[i] in due[..q] && Mentions(callback(f[i]), due[q])
    decreases |due|
  {
    var u, rest, t, f := due[0], due[1..], due[q], Fires(due, callback);
    var ops := callback(u);
    var left := Spared(rest, ops);
    var more := Fires(left, callback);
    SparedIs(rest, ops);
    FiresIn(left, callback);
    assert f == [u] + more;
    if q == 0 {
      assert f[0] == t;
    } else {
      assert u in due[..q] && due[..q] == [u] + rest[..q - 1];
      assert u != t;
      if Mentions(ops, t) {
        assert f[0] == u;
      } else {
        SparedSplit(rest, ops, q - 1);
        var p := |Spared(rest[..q - 1], ops)|;
        FiresExactly(left, callback, p);
        SparedIs(rest[..q - 1], ops);
        LaterFires(u, more, left, rest[..q - 1], p, callback, t);
      }
    }
  }

  lemma LaterFires(u: nat, more: seq<nat>, left: seq<nat>, front: seq<nat>, p: nat, callback: nat -> seq<Op>, t: nat)
    requires p <= |left| && (forall y :: y in more ==> y in left) && u != t && !Mentions(callback(u), t)
    requires forall y :: y in left ==> (y in left[..p] <==> y in front)
    ensures var f, b := [u] + more, [u] + front;
      && (t in f <==> t in more)
      && ((exists i :: 0 <= i < |f| && f[i] in b && Mentions(callback(f[i]), t)) <==>
          (exists i :: 0 <= i < |more| && more[i] in left[..p] && Mentions(callback(more[i]), t)))
  {
    hide Mentions;
    var f, b := [u] + more, [u] + front;
    if i :| 0 <= i < |f| && f[i] in b && Mentions(callback(f[i]), t) {
      assert i > 0 && f[i] == more[i - 1];
      assert more[i - 1] in left;
      assert more[i - 1] in left[..p];
    }
    if i :| 0 <= i < |more| && more[i] in left[..p] && Mentions(callback(more[i]), t) {
      assert f[i + 1] == more[i] && more[i] in left;
      assert more[i] in front;
    }
  }

  lemma {:induction false} FiresIn(due: seq<nat>, callback: nat -> seq<Op>)
    ensures forall y :: y in Fires(due, callback) ==> y in due
    decreases |due|
  {
    if due != [] {
      SparedIs(due[1..], callback(due[0]));
      FiresIn(Spared(due[1..], callback(due[0])), callback);
    }
  }

  lemma {:induction false} WithoutConcat(a: seq<nat>, b: seq<nat>, x: nat)
    ensures Without(a + b, x) == Without(a, x) + Without(b, x)
  {
    hide Without;
    if a == [] {
      WithoutNothing(x);
      assert a + b == b && [] + Without(b, x) == Without(b, x);
    } else {
      WithoutConcat(a[1..], b, x);
      WithoutFirst(a, x);
      WithoutFirst(a + b, x);
      assert (a + b)[0] == a[0] && (a + b)[1..] == a[1..] + b;
      var first, rest, last := if a[0] == x then [] else [a[0]], Without(a[1..], x), Without(b, x);
      assert first + (rest + last) == first + rest + last;
    }
  }

  lemma WithoutFirst(s: seq<nat>, x: nat)
    requires s != []
    ensures Without(s, x) == (if s[0] == x then [] else [s[0]]) + Without(s[1..], x)
  {
  }

  lemma WithoutNothing(x: nat)
    ensures Without([], x) == []
  {
  }

  lemma {:induction false} WithoutUnique(s: seq<nat>, x: nat)
    requires Unique(s)
    ensures Unique(Without(s, x))
  {
    if s != [] {
      WithoutUnique(s[1..], x);
      WithoutIs(s[1..], x);
      assert s[0] !in s[1..];
    }
  }

  /** What is spared keeps its order. */
  lemma {:induction false} SparedSplit(s: seq<nat>, ops: seq<Op>, q: nat)
    requires q < |s| && Unique(s) && !Mentions(ops, s[q])
    ensures Unique(Spared(s, ops))
    ensures var p := |Spared(s[..q], ops)|;
      && p < |Spared(s, ops)| && Spared(s, ops)[p] == s[q] && Spared(s, ops)[..p] == Spared(s[..q], ops)
      && forall y :: y in Spared(s, ops) ==> (y in Spared(s, ops)[..p] <==> y in s[..q])
    decreases |ops|
  {
    if ops == [] {
      assert Spared(s[..q], ops) == s[..q];
    } else {
      var n := |ops| - 1;
      var x, front := ops[n].t, ops[..n];
      assert !Mentions(front, s[q]) by { assert forall k :: 0 <= k < n ==> front[k] == ops[k]; }
      assert x != s[q];
      SparedSplit(s, front, q);
      hide Without;
      var left, p := Spared(s, front), |Spared(s[..q], front)|;
      WithoutSplit(left, p, x);
      WithoutIs(left, x);
    }
  }

  /** Where one timer of a list is after another one has left. */
  lemma WithoutSplit(left: seq<nat>, p: nat, x: nat)
    requires p < |left| && Unique(left) && left[p] != x
    ensures Unique(Without(left, x))
    ensures var w, k := Without(left, x), |Without(left[..p], x)|;
      && k < |w| && w[k] == left[p] && w[..k] == Without(left[..p], x)
      && forall y :: y in w ==> (y in w[..k] <==> y in left[..p])
  {
    WithoutUnique(left, x);
    assert Without([left[p]], x) == [left[p]];
    hide Without;
    assert left == left[..p] + ([left[p]] + left[p + 1..]);
    WithoutConcat(left[..p], [left[p]] + left[p + 1..], x);
    WithoutConcat([left[p]], left[p + 1..], x);
    WithoutIs(left, x);
    WithoutIs(left[..p], x);
  }

  /** They fire in the order of expiry, and of arming among equals. */
  lemma {:induction false} FiresInOrder(due: seq<nat>, callback: nat -> seq<Op>, expires: seq<nat>, stamp: seq<nat>)
    requires Sorted(due, expires, stamp)
    ensures Sorted(Fires(due, callback), expires, stamp)
    decreases |due|
  {
    hide Spared, Sooner;
    if due != [] {
      var rest := due[1..];
      var left := Spared(rest, callback(due[0]));
      SparedIs(rest, callback(due[0]));
      SparedSorted(rest, callback(due[0]), expires, stamp);
      FiresInOrder(left, callback, expires, stamp);
      FiresIn(left, callback);
      FirstSorted(due[0], Fires(left, callback), rest, expires, stamp);
    }
  }

  lemma FirstSorted(u: nat, s: seq<nat>, rest: seq<nat>, expires: seq<nat>, stamp: seq<nat>)
    requires Sorted(s, expires, stamp) && Sorted([u] + rest, expires, stamp) && forall y :: y in s ==> y in rest
    ensures Sorted([u] + s, expires, stamp)
  {
    hide Sooner;
    var t := [u] + s;
    forall i, j | 0 <= i < j < |t| ensures Sooner(expires, stamp, t[i], t[j]) {
      assert t[j] == s[j - 1] && s[j - 1] in rest;
      if i == 0 {
        var k :| 0 <= k < |rest| && rest[k] == t[j];
        assert ([u] + rest)[k + 1] == t[j] && ([u] + rest)[0] == u;
      } else {
        assert t[i] == s[i - 1];
      }
    }
  }

  lemma {:induction false} WithoutSorted(s: seq<nat>, x: nat, expires: seq<nat>, stamp: seq<nat>)
    requires Sorted(s, expires, stamp)
    ensures Sorted(Without(s, x), expires, stamp)
  {
    hide Sooner;
    if s != [] {
      WithoutSorted(s[1..], x, expires, stamp);
      WithoutIs(s[1..], x);
      assert s == [s[0]] + s[1..];
      FirstSorted(s[0], Without(s[1..], x), s[1..], expires, stamp);
    }
  }

  lemma {:induction false} SparedSorted(s: seq<nat>, ops: seq<Op>, expires: seq<nat>, stamp: seq<nat>)
    requires Sorted(s, expires, stamp)
    ensures Sorted(Spared(s, ops), expires, stamp)
    decreases |ops|
  {
    if ops != [] {
      SparedSorted(s, ops[..|ops| - 1], expires, stamp);
      WithoutSorted(Spared(s, ops[..|ops| - 1]), ops[|ops| - 1].t, expires, stamp);
    }
  }

  lemma {:induction false} DueSorted(s: seq<nat>, expires: seq<nat>, stamp: seq<nat>, now: nat)
    requires Sorted(s, expires, stamp) && Fits(s, |expires|)
    ensures Sorted(Due(s, expires, now), expires, stamp)
  {
    hide Sooner;
    if s != [] {
      DueSorted(s[1..], expires, stamp, now);
      DueIs(s[1..], expires, now);
      assert s == [s[0]] + s[1..];
      FirstSorted(s[0], Due(s[1..], expires, now), s[1..], expires, stamp);
    }
  }

  lemma At(next: seq<int>, head: int, s: seq<nat>, i: nat)
    requires Forward(next, head, s) && i < |s|
    ensures head == s[0] && s[i] < |next| && next[s[i]] == After(s, i)
  {
  }

  lemma AtHead(next: seq<int>, head: int, s: seq<nat>)
    requires Forward(next, head, s)
    ensures head == First(s)
  {
  }

  lemma BeforeIn(next: seq<int>, head: int, s: seq<nat>, k: nat)
    requires Forward(next, head, s) && k <= |s|
    ensures Before(s, k) < |next| && (Before(s, k) >= 0 <==> k > 0)
  {
  }

  /** A timer linked in at its place. */
  lemma Joined(next: seq<int>, head: int, s: seq<nat>, k: nat, t: nat, expires: seq<nat>, stamp: seq<nat>)
    requires Forward(next, head, s) && Unique(s) && Sorted(s, expires, stamp) && k <= |s| && t !in s
    requires t < |next| == |expires| == |stamp| && Fits(s, |expires|) && Before(s, k) < |next|
    requires (forall i :: 0 <= i < k ==> expires[s[i]] <= expires[t]) && (k < |s| ==> expires[s[k]] > expires[t])
    requires forall u :: 0 <= u < |stamp| && u != t ==> stamp[u] < stamp[t]
    ensures var linked := next[t := if k < |s| then s[k] else -1];
      Forward(if k == 0 then linked else linked[Before(s, k) := t], if k == 0 then t else head, Placed(s, expires, t))
    ensures Unique(Placed(s, expires, t)) && Sorted(Placed(s, expires, t), expires, stamp)
    ensures forall y :: y in Placed(s, expires, t) <==> y == t || y in s
  {
    hide Forward, Sorted, Unique, Sooner;
    assert k > 0 ==> s[k - 1] in s;
    var linked := next[t := if k < |s| then s[k] else -1];
    ForwardPut(next, head, s, k, t, if k == 0 then linked else linked[Before(s, k) := t], if k == 0 then t else head);
    PutFacts(s, k, t);
    Others(s, t, stamp);
    SortedPut(s, expires, stamp, k, t);
    PutPlaced(s, expires, t, k);
  }

  lemma Others(s: seq<nat>, t: nat, stamp: seq<nat>)
    requires t !in s && t < |stamp| && forall u :: 0 <= u < |stamp| && u != t ==> stamp[u] < stamp[t]
    ensures forall i :: 0 <= i < |s| && s[i] < |stamp| ==> stamp[s[i]] < stamp[t]
  {
    forall i | 0 <= i < |s| && s[i] < |stamp| ensures stamp[s[i]] < stamp[t] { assert s[i] in s; }
  }

  lemma NoneDue(s: seq<nat>, expires: seq<nat>, stamp: seq<nat>, now: nat, active: seq<bool>)
    requires Sorted(s, expires, stamp) && s != [] && |active| == |expires| == |stamp| && s[0] < |expires|
    requires expires[s[0]] > now
    requires forall t :: 0 <= t < |active| ==> (active[t] <==> t in s)
    ensures forall u :: 0 <= u < |active| && active[u] ==> expires[u] > now
  {
    forall u | 0 <= u < |active| && active[u] ensures expires[u] > now {
      var i :| 0 <= i < |s| && s[i] == u;
      if i > 0 { assert Sooner(expires, stamp, s[0], s[i]); }
    }
  }
}
