/** The supervised-process watchdog of src/kernel/watchdog.c on top of the timer
    list. Time, the dequeue of a timer and its callback are separate steps, so
    that any call of another processor may fall between them. */
module Watchdogs {
  import opened Links
  import opened Timers

  const SLOTS := 8
  const TICK_MS := 10
  /** Generations are 24 bits wide and skip zero. */
  const GENERATIONS := 0x100_0000
  const EINVAL := -22
  const EBUSY := -16

  datatype State = Free | Armed | Restart | Failed

  datatype Config = Config(timeoutMs: nat, restartMax: nat, autoRestart: bool)

  datatype Entry = Entry(generation: nat, state: State, pid: int, config: Config, restarts: nat)

  /** wd_ms_to_ticks: rounded up, at least one. */
  function Ticks(ms: nat): (t: nat)
    ensures t >= 1 && t * TICK_MS >= ms && (ms > 0 ==> (t - 1) * TICK_MS < ms) && (ms == 0 ==> t == 1)
  {
    var t := ms / TICK_MS + if ms % TICK_MS != 0 then 1 else 0;
    if t == 0 then 1 else t
  }

  // ----- handles -----

  function NextGeneration(g: nat): (n: nat)
    requires g < GENERATIONS
    ensures 1 <= n < GENERATIONS
  {
    var n := (g + 1) % GENERATIONS;
    if n == 0 then 1 else n
  }

  function Handle(generation: nat, slot: nat): nat { generation * 256 + slot + 1 }

  /** The handle of an entry in use. */
  ghost predicate Names(e: Entry, slot: nat, handle: nat) { e.state != Free && handle == Handle(e.generation, slot) }

  lemma HandlePositive(g: nat, slot: nat)
    ensures Handle(g, slot) > 0
  {
  }

  lemma OneSlot(g: nat, slot: nat, h: nat, other: nat)
    requires slot < SLOTS && other < SLOTS && Handle(g, slot) == Handle(h, other)
    ensures slot == other
  {
  }

  /** The generation after so many registrations of a slot. */
  ghost function Later(g: nat, k: nat): (n: nat)
    requires g < GENERATIONS
    ensures n < GENERATIONS && (k > 0 ==> n > 0)
  {
    if k == 0 then g else NextGeneration(Later(g, k - 1))
  }

  lemma {:induction false} LaterIs(g: nat, k: nat)
    requires 0 < g < GENERATIONS
    ensures Later(g, k) == (g - 1 + k) % (GENERATIONS - 1) + 1
  {
    if k > 0 {
      LaterIs(g, k - 1);
      NextIs(g - 1 + k - 1);
    }
  }

  lemma NextIs(x: nat)
    ensures NextGeneration(x % (GENERATIONS - 1) + 1) == (x + 1) % (GENERATIONS - 1) + 1
  {
  }

  /** A stale handle matches again whenever the slot was registered a multiple of
      2^24 - 1 times since, and at no other time. */
  lemma StaleHandle(g: nat, k: nat, slot: nat, other: nat)
    requires 0 < g < GENERATIONS && slot < SLOTS && other < SLOTS
    ensures Handle(Later(g, k), other) == Handle(g, slot) <==> other == slot && k % (GENERATIONS - 1) == 0
  {
    hide Later;
    LaterIs(g, k);
    SameAgain(g - 1, k);
  }

  lemma SameAgain(x: nat, k: nat)
    requires x < GENERATIONS - 1
    ensures (x + k) % (GENERATIONS - 1) == x <==> k % (GENERATIONS - 1) == 0
  {
  }

  /** The first handle of the first slot comes back. */
  lemma HandleComesBack()
    ensures Handle(Later(1, 0xFF_FFFF), 0) == Handle(1, 0)
  {
    StaleHandle(1, 0xFF_FFFF, 0, 0);
  }

  // ----- the state and its steps -----

  /** Everything the watchdog keeps: the entries, when each was last registered, fed or
      rebound, the time, the entry whose timer was taken off the list and whose callback
      has not run yet, and the timers. */
  datatype View = View(entries: seq<Entry>, kick: seq<nat>, now: nat, pending: int, clock: Clock)

  datatype Step =
    | DoRegister(pid: int, config: Config)
    | DoUnregister(handle: nat)
    | DoFeed(handle: nat)
    | DoRebind(handle: nat, pid: int)
    | Pass
    | Take
    | Call

  /** An armed entry has its full deadline, and is listed, or due with its callback
      on the way; restarts stay within the budget. */
  ghost predicate EntryOk(e: Entry, active: bool, expires: nat, kick: nat, now: nat, pending: bool) {
    && e.generation < GENERATIONS && (e.state != Free ==> e.generation > 0) && kick <= now
    && (e.state == Free ==> !active)
    && (e.state == Armed ==> expires == kick + Ticks(e.config.timeoutMs) && (active || (pending && expires <= now)))
    && e.restarts <= e.config.restartMax
    && (e.state == Restart ==> e.config.autoRestart && e.restarts < e.config.restartMax)
    && (e.restarts > 0 ==> e.config.autoRestart)
  }

  ghost predicate Listed(c: Clock) {
    && Unique(c.order) && Timers.Sorted(c.order, c.expires, c.stamp)
    && forall t :: 0 <= t < |c.active| ==> (c.active[t] <==> t in c.order)
  }

  ghost predicate Sound(v: View) {
    && |v.entries| == |v.kick| == |v.clock.active| == SLOTS && -1 <= v.pending < SLOTS && InRanges(v.clock)
    && Listed(v.clock)
    && forall i :: 0 <= i < SLOTS ==> EntryOk(v.entries[i], v.clock.active[i], v.clock.expires[i], v.kick[i], v.now,
                                              v.pending == i)
  }

  /** The entry a handle names, or none. */
  ghost function Found(entries: seq<Entry>, handle: nat, n: nat): (i: int)
    requires n <= |entries|
    ensures -1 <= i < n && (i >= 0 ==> Names(entries[i], i, handle))
    ensures i < 0 ==> forall k :: 0 <= k < n ==> !Names(entries[k], k, handle)
  {
    if n == 0 then -1 else if Names(entries[n - 1], n - 1, handle) then n - 1 else Found(entries, handle, n - 1)
  }

  /** The first free entry, or none. */
  ghost function FirstFree(entries: seq<Entry>, k: nat): (i: int)
    requires k <= |entries|
    ensures -1 <= i < |entries|
    ensures (i >= 0 ==> k <= i && entries[i].state == Free && forall j :: k <= j < i ==> entries[j].state != Free)
    ensures i < 0 ==> forall j :: k <= j < |entries| ==> entries[j].state != Free
    decreases |entries| - k
  {
    if k == |entries| then -1 else if entries[k].state == Free then k else FirstFree(entries, k + 1)
  }

  ghost predicate Overdue(v: View, i: nat)
    requires i < |v.entries| == |v.kick|
  {
    v.entries[i].state == Armed && v.now >= v.kick[i] + Ticks(v.entries[i].config.timeoutMs)
  }

  function Killed(e: Entry): Entry {
    e.(state := if e.config.autoRestart && e.restarts < e.config.restartMax then Restart else Failed)
  }

  /** A full deadline from now on. */
  ghost function Rearmed(v: View, i: nat, e: Entry): View
    requires Sound(v) && i < SLOTS
  {
    v.(entries := v.entries[i := e], kick := v.kick[i := v.now], clock := Scheduled(v.clock, i,
                                                                                    Ticks(e.config.timeoutMs), v.now))
  }

  /** The state after a step. */
  ghost function Next(step: Step, v: View): View
    requires Sound(v)
  {
    match step
    case DoRegister(pid, config) =>
      var i := FirstFree(v.entries, 0);
      if config.timeoutMs == 0 || i < 0 then v
      else Rearmed(v, i, Entry(NextGeneration(GenerationOf(v, i)), Armed, pid, config, 0))
    case DoUnregister(handle) =>
      var i := Found(v.entries, handle, SLOTS);
      if i < 0 then v else v.(entries := v.entries[i := v.entries[i].(state := Free)], clock := Stopped(v.clock, i))
    case DoFeed(handle) =>
      var i := Found(v.entries, handle, SLOTS);
      if i < 0 || v.entries[i].state != Armed then v else Rearmed(v, i, v.entries[i])
    case DoRebind(handle, pid) =>
      var i := Found(v.entries, handle, SLOTS);
      if i < 0 || v.entries[i].state != Restart then v
      else Rearmed(v, i, v.entries[i].(pid := pid, restarts := v.entries[i].restarts + 1, state := Armed))
    case Pass => v.(now := v.now + 1)
    case Take =>
      if v.pending >= 0 || v.clock.order == [] || v.clock.expires[v.clock.order[0]] > v.now then v
      else v.(pending := v.clock.order[0], clock := Stopped(v.clock, v.clock.order[0]))
    case Call =>
      if v.pending < 0 then v
      else if Overdue(v, v.pending)
         then v.(pending := -1, entries := v.entries[v.pending := Killed(v.entries[v.pending])])
      else v.(pending := -1)
  }

  ghost function GenerationOf(v: View, i: nat): (g: nat)
    requires Sound(v) && i < SLOTS
    ensures g == v.entries[i].generation < GENERATIONS
  {
    assert EntryOk(v.entries[i], v.clock.active[i], v.clock.expires[i], v.kick[i], v.now, v.pending == i);
    v.entries[i].generation
  }

  /** The answer of a call: a handle or 0, a result, or the entry that was killed. */
  ghost function Answer(step: Step, v: View): int
    requires Sound(v)
  {
    match step
    case DoRegister(_, config) =>
      var i := FirstFree(v.entries, 0);
      if config.timeoutMs == 0 || i < 0 then 0 else Handle(NextGeneration(GenerationOf(v, i)), i)
    case DoRebind(handle, _) =>
      var i := Found(v.entries, handle, SLOTS);
      if i < 0 then EINVAL else if v.entries[i].state != Restart then EBUSY else 0
    case Call => if v.pending >= 0 && Overdue(v, v.pending) then v.pending else -1
    case _ => 0
  }

  class Watchdog {
    const wheel: Wheel
    var entries: seq<Entry>
    /** The entry whose timer was taken off the list and whose callback has not run yet. */
    var pending: int
    /** When an entry was last registered, fed or rebound. */
    ghost var kick: seq<nat>

    ghost function Now(): View
      reads this, wheel
    {
      View(entries, kick, wheel.now, pending, wheel.Now())
    }

    ghost predicate Valid()
      reads this, wheel
    {
      wheel.Valid() && Sound(Now())
    }

    constructor ()
      ensures Valid() && fresh(wheel) && pending < 0 && forall i :: 0 <= i < SLOTS ==> entries[i].state == Free
    {
      var w := new Wheel(SLOTS);
      wheel := w;
      entries := seq(SLOTS, _ => Entry(0, Free, 0, Config(0, 0, false), 0));
      kick := seq(SLOTS, _ => 0);
      pending := -1;
      new;
      Ranges(wheel.next, wheel.head, wheel.order);
    }

    /** wd_lookup_locked. */
    method Lookup(handle: nat) returns (i: int)
      requires Valid()
      ensures i == Found(entries, handle, SLOTS) && -1 <= i < SLOTS
      ensures forall k :: 0 <= k < SLOTS ==> (Names(entries[k], k, handle) <==> k == i)
    {
      hide Wheel.Valid, EntryOk, Listed;
      forall k, j | 0 <= k < SLOTS && 0 <= j < SLOTS && Names(entries[k], k, handle) && Names(entries[j], j, handle)
        ensures k == j
      {
        OneSlot(entries[k].generation, k, entries[j].generation, j);
      }
      var slot := handle % 256;
      if slot == 0 || slot > SLOTS { return -1; }
      if entries[slot - 1].state == Free { return -1; }
      if entries[slot - 1].generation != handle / 256 { return -1; }
      return slot - 1;
    }

    /** watchdog_register: the first free entry, with a new generation and a full
        deadline from now on; 0 exactly if the timeout is zero or no entry is free. */
    method Register(pid: int, config: Config) returns (handle: nat)
      requires Valid()
      modifies this`entries, this`kick, wheel
      ensures Valid() && Now() == Next(DoRegister(pid, config), old(Now()))
      ensures handle == Answer(DoRegister(pid, config), old(Now()))
      ensures handle == 0 <==> config.timeoutMs == 0 || forall k :: 0 <= k < SLOTS ==> old(entries)[k].state != Free
    {
      hide Wheel.Valid, Ticks, Handle, EntryOk, Listed, Scheduled;
      ghost var was := Now();
      if config.timeoutMs == 0 { return 0; }
      var k := 0;
      while k < SLOTS && entries[k].state != Free
        invariant 0 <= k <= SLOTS && FirstFree(entries, 0) == FirstFree(entries, k)
      {
        k := k + 1;
      }
      if k == SLOTS { return 0; }
      OneEntry(was, k);
      entries := entries[k := Entry(NextGeneration(entries[k].generation), Armed, pid, config, 0)];
      wheel.Init(k);
      Cleared(was.clock, k, Ticks(config.timeoutMs), was.now);
      wheel.Set(k, Ticks(config.timeoutMs));
      kick := kick[k := wheel.now];
      StillListed(wheel);
      RearmedOk(was, k, entries[k]);
      HandlePositive(entries[k].generation, k);
      return Handle(entries[k].generation, k);
    }

    /** watchdog_unregister. */
    method Unregister(handle: nat)
      requires Valid()
      modifies this`entries, wheel
      ensures Valid() && Now() == Next(DoUnregister(handle), old(Now()))
    {
      hide Wheel.Valid, Ticks, Handle, EntryOk, Listed;
      ghost var was := Now();
      var i := Lookup(handle);
      if i >= 0 {
        wheel.Cancel(i);
        entries := entries[i := entries[i].(state := Free)];
        StillListed(wheel);
        FreedOk(was, i);
      }
    }

    /** watchdog_feed: a full deadline again, unless the entry has already expired. */
    method Feed(handle: nat)
      requires Valid()
      modifies this`kick, wheel
      ensures Valid() && Now() == Next(DoFeed(handle), old(Now()))
    {
      hide Wheel.Valid, Ticks, Handle, EntryOk, Listed, Scheduled;
      ghost var was := Now();
      var i := Lookup(handle);
      if i >= 0 && entries[i].state == Armed {
        wheel.Set(i, Ticks(entries[i].config.timeoutMs));
        kick := kick[i := wheel.now];
        assert entries == entries[i := entries[i]];
        StillListed(wheel);
        OneEntry(was, i);
        RearmedOk(was, i, entries[i]);
      }
    }

    /** watchdog_rebind: only a pending restart, and it uses up one of the budget;
        -EINVAL exactly for a handle that names no entry, -EBUSY exactly for an entry
        that waits for no restart. */
    method Rebind(handle: nat, pid: int) returns (r: int)
      requires Valid()
      modifies this`entries, this`kick, wheel
      ensures Valid() && Now() == Next(DoRebind(handle, pid), old(Now()))
      ensures r == Answer(DoRebind(handle, pid), old(Now()))
    {
      hide Wheel.Valid, Ticks, Handle, EntryOk, Listed, Scheduled;
      ghost var was := Now();
      var k := Lookup(handle);
      if k < 0 { return EINVAL; }
      if entries[k].state != Restart { return EBUSY; }
      entries := entries[k := entries[k].(pid := pid, restarts := entries[k].restarts + 1, state := Armed)];
      wheel.Set(k, Ticks(entries[k].config.timeoutMs));
      kick := kick[k := wheel.now];
      StillListed(wheel);
      OneEntry(was, k);
      RearmedOk(was, k, entries[k]);
      return 0;
    }

    /** The tick counter moves on. */
    method Advance()
      requires Valid()
      modifies wheel`now
      ensures Valid() && Now() == Next(Pass, old(Now()))
    {
      hide Ticks;
      wheel.now := wheel.now + 1;
    }

    /** timer_tick, first half: the first due timer comes off the list. */
    method Dequeue()
      requires Valid() && pending < 0
      modifies this`pending, wheel
      ensures Valid() && Now() == Next(Take, old(Now()))
    {
      hide Wheel.Valid, Ticks, EntryOk, Unique, Timers.Sorted;
      ghost var was := Now();
      pending := wheel.Pop();
      StillListed(wheel);
      if pending >= 0 {
        ghost var t: nat := pending;
        Taken(was.clock, wheel.Now(), t);
        TakenOk(was, t);
      } else {
        HeadLater(was.clock, was.now);
      }
    }

    /** timer_tick, second half: wd_expire. Only an entry whose whole timeout has
        passed since it was last registered, fed or rebound expires. */
    method Expire() returns (victim: int, killed: bool)
      requires Valid() && pending >= 0
      modifies this`pending, this`entries
      ensures Valid() && Now() == Next(Call, old(Now())) && killed == (Answer(Call, old(Now())) >= 0)
      ensures killed ==> victim == old(entries)[old(pending)].pid
    {
      hide Wheel.Valid, Listed, Ticks;
      ghost var was := Now();
      var i := pending;
      pending := -1;
      var e := entries[i];
      assert EntryOk(was.entries[i], was.clock.active[i], was.clock.expires[i], was.kick[i], was.now, true);
      if e.state != Armed || wheel.now < wheel.expires[i] { return 0, false; }
      var restart := e.config.autoRestart && e.restarts < e.config.restartMax;
      entries := entries[i := e.(state := if restart then Restart else Failed)];
      return e.pid, true;
    }

    // ----- whole runs -----

    /** Every interleaving of calls, time and the two halves of the tick, with all
        answers. */
    method Run(steps: seq<Step>) returns (answers: seq<int>, ghost trace: seq<View>)
      requires Valid()
      modifies this`entries, this`kick, this`pending, wheel
      ensures Valid() && Ran(steps, answers, trace) && trace[0] == old(Now()) && trace[|steps|] == Now()
    {
      hide Next, Answer, Sound, Wheel.Valid;
      answers, trace := [], [Now()];
      for k := 0 to |steps|
        invariant Valid() && |answers| == k && |trace| == k + 1 && trace[0] == old(Now()) && trace[k] == Now()
        invariant forall j :: 0 <= j < k ==> Went(steps[j], answers[j], trace[j], trace[j + 1])
        invariant forall j :: 0 <= j <= k ==> Sound(trace[j])
      {
        var answer := Do(steps[k]);
        answers, trace := answers + [answer], trace + [Now()];
      }
    }

    method Do(step: Step) returns (answer: int)
      requires Valid()
      modifies this`entries, this`kick, this`pending, wheel
      ensures Valid() && Now() == Next(step, old(Now())) && answer == Answer(step, old(Now()))
    {
      hide EntryOk, Listed, Wheel.Valid, Ticks, Handle;
      answer := 0;
      match step
      case DoRegister(pid, config) => answer := Register(pid, config);
      case DoUnregister(handle) => Unregister(handle);
      case DoFeed(handle) => Feed(handle);
      case DoRebind(handle, pid) => answer := Rebind(handle, pid);
      case Pass => Advance();
      case Take => if pending < 0 { Dequeue(); }
      case Call =>
        answer := -1;
        if pending >= 0 {
          var i := pending;
          var pid, dead := Expire();
          if dead { answer := i; }
        }
    }
  }

  // ----- the steps keep the state sound -----

  lemma OneEntry(v: View, i: nat)
    requires Sound(v) && i < SLOTS
    ensures EntryOk(v.entries[i], v.clock.active[i], v.clock.expires[i], v.kick[i], v.now, v.pending == i)
    ensures v.entries[i].generation < GENERATIONS && (v.entries[i].state == Free ==> !v.clock.active[i])
  {
  }

  lemma StillListed(w: Wheel)
    requires w.Valid()
    ensures InRanges(w.Now()) && Listed(w.Now())
  {
    Ranges(w.next, w.head, w.order);
  }

  /** A new deadline does not depend on the old fields. */
  lemma Cleared(c: Clock, t: nat, ticks: nat, now: nat)
    requires InRanges(c) && t < |c.active|
    ensures InRanges(c.(expires := c.expires[t := 0], stamp := c.stamp[t := 0]))
    ensures Scheduled(c.(expires := c.expires[t := 0], stamp := c.stamp[t := 0]), t, ticks, now) == Scheduled(c, t,
        ticks, now)
  {
    var e := now + if ticks == 0 then 1 else ticks;
    assert c.expires[t := 0][t := e] == c.expires[t := e];
    assert c.stamp[t := 0][t := c.armings] == c.stamp[t := c.armings];
  }

  lemma RearmedOk(v: View, i: nat, e: Entry)
    requires Sound(v) && i < SLOTS && 0 < e.generation < GENERATIONS && e.state == Armed
    requires e.restarts <= e.config.restartMax && (e.restarts > 0 ==> e.config.autoRestart)
    requires InRanges(Rearmed(v, i, e).clock) && Listed(Rearmed(v, i, e).clock)
    ensures Sound(Rearmed(v, i, e))
  {
    hide Listed, Placed, Without;
    var w := Rearmed(v, i, e);
    forall k | 0 <= k < SLOTS
      ensures EntryOk(w.entries[k], w.clock.active[k], w.clock.expires[k], w.kick[k], w.now, w.pending == k)
    {
      OneEntry(v, k);
    }
  }

  lemma FreedOk(v: View, i: nat)
    requires Sound(v) && i < SLOTS && InRanges(Stopped(v.clock, i)) && Listed(Stopped(v.clock, i))
    ensures Sound(v.(entries := v.entries[i := v.entries[i].(state := Free)], clock := Stopped(v.clock, i)))
  {
    hide Listed, Without, Ticks;
    var w := v.(entries := v.entries[i := v.entries[i].(state := Free)], clock := Stopped(v.clock, i));
    forall k | 0 <= k < SLOTS
      ensures EntryOk(w.entries[k], w.clock.active[k], w.clock.expires[k], w.kick[k], w.now, w.pending == k)
    {
      OneEntry(v, k);
    }
  }

  lemma TakenOk(v: View, t: nat)
    requires Sound(v) && v.pending < 0 && t < SLOTS && v.clock.expires[t] <= v.now && InRanges(Stopped(v.clock, t)) &&
      Listed(Stopped(v.clock, t))
    ensures Sound(v.(pending := t, clock := Stopped(v.clock, t)))
  {
    hide Listed, Without, Ticks;
    var w := v.(pending := t, clock := Stopped(v.clock, t));
    forall k | 0 <= k < SLOTS
      ensures EntryOk(w.entries[k], w.clock.active[k], w.clock.expires[k], w.kick[k], w.now, w.pending == k)
    {
      OneEntry(v, k);
    }
  }

  lemma HeadLater(c: Clock, now: nat)
    requires InRanges(c) && Listed(c) && forall u :: 0 <= u < |c.active| && c.active[u] ==> c.expires[u] > now
    ensures c.order == [] || c.expires[c.order[0]] > now
  {
    if c.order != [] { assert c.order[0] in c.order; }
  }

  // ----- what every run promises -----

  ghost predicate Went(step: Step, answer: int, a: View, b: View) {
    Sound(a) && b == Next(step, a) && answer == Answer(step, a)
  }

  ghost predicate Ran(steps: seq<Step>, answers: seq<int>, trace: seq<View>) {
    && |answers| == |steps| && |trace| == |steps| + 1 && (forall k :: 0 <= k <= |steps| ==> Sound(trace[k]))
    && forall k :: 0 <= k < |steps| ==> Went(steps[k], answers[k], trace[k], trace[k + 1])
  }

  /** What a step does to an entry. */
  lemma OneMove(step: Step, v: View, i: nat)
    requires Sound(v) && Sound(Next(step, v)) && i < SLOTS
    ensures var e, f, mine := v.entries[i], Next(step, v).entries[i], Handle(v.entries[i].generation, i);
      && (e.state != Free && step == DoUnregister(mine) ==> f == e.(state := Free))
      && (step.Call? && Answer(step, v) == i ==> Overdue(v, i) && f == Killed(e))
      && (e.state == Armed ==> f == e || step == DoUnregister(mine) || (step.Call? && Answer(step, v) == i))
      && (e.state == Restart ==>
            || f == e || step == DoUnregister(mine)
            || (step.DoRebind? && f == e.(pid := step.pid, restarts := e.restarts + 1, state := Armed)))
      && (e.state == Failed ==> f == e || step == DoUnregister(mine))
      && (e.state == Armed ==> Next(step, v).kick[i] == if step == DoFeed(mine) then v.now else v.kick[i])
      && (var made := step.DoRegister? && Answer(step, v) != 0 && FirstFree(v.entries, 0) == i;
          f.generation == if made then NextGeneration(GenerationOf(v, i)) else e.generation)
      && Next(step, v).now == v.now + if step == Pass then 1 else 0
  {
    hide EntryOk, Listed, Ticks, Stopped, Scheduled;
    OneEntry(v, i);
    forall k, h | 0 <= k < SLOTS && Names(v.entries[i], i, h) && Names(v.entries[k], k, h) ensures k == i {
      OneSlot(v.entries[i].generation, i, v.entries[k].generation, k);
    }
  }

  /** How long ago the entry with a handle was fed, counted from some step on. */
  function Since(steps: seq<Step>, handle: nat, from: nat, till: nat): nat
    requires from <= till <= |steps|
    decreases till
  {
    if till == from || steps[till - 1] == DoFeed(handle) then 0
    else Since(steps, handle, from, till - 1) + if steps[till - 1] == Pass then 1 else 0
  }

  /** In a stretch of a run the handle is not unregistered, and it is fed again before
      so many ticks have passed. */
  ghost predicate FedInTime(steps: seq<Step>, handle: nat, from: nat, till: nat, ticks: nat)
    requires from <= till <= |steps|
  {
    forall j :: from <= j < till ==> steps[j] != DoUnregister(handle) && Since(steps, handle, from, j) < ticks
  }

  lemma FedStep(steps: seq<Step>, handle: nat, from: nat, till: nat, ticks: nat)
    requires from < till <= |steps| && FedInTime(steps, handle, from, till, ticks)
    ensures FedInTime(steps, handle, from, till - 1, ticks) && Since(steps, handle, from, till - 1) < ticks
    ensures steps[till - 1] != DoUnregister(handle)
    ensures Since(steps, handle, from, till) ==
      if steps[till - 1] == DoFeed(handle) then 0
      else Since(steps, handle, from, till - 1) + if steps[till - 1] == Pass then 1 else 0
  {
  }

  /** A step of a run. */
  lemma At(steps: seq<Step>, answers: seq<int>, trace: seq<View>, k: nat)
    requires Ran(steps, answers, trace) && k < |steps|
    ensures Sound(trace[k]) && Sound(trace[k + 1]) && trace[k + 1] == Next(steps[k], trace[k])
    ensures answers[k] == Answer(steps[k], trace[k])
    ensures |trace[k].entries| == |trace[k].kick| == |trace[k + 1].entries| == |trace[k + 1].kick| == SLOTS
  {
    hide Next, Answer;
    assert Went(steps[k], answers[k], trace[k], trace[k + 1]);
  }

  lemma Sizes(steps: seq<Step>, answers: seq<int>, trace: seq<View>, k: nat)
    requires Ran(steps, answers, trace) && k <= |steps|
    ensures Sound(trace[k]) && |trace[k].entries| == |trace[k].kick| == SLOTS
  {
  }

  /** A process that feeds its watchdog in time lives: an armed entry with a full
      deadline stays armed, whatever else happens, while it is not unregistered and
      is fed again before its timeout has passed. */
  lemma {:induction false} FedLives(steps: seq<Step>, answers: seq<int>, trace: seq<View>, i: nat, k: nat, n: nat,
                                    mine: nat)
    requires Ran(steps, answers, trace) && k <= n <= |steps| && i < SLOTS
    requires |trace[k].entries| == |trace[k].kick| == SLOTS
    requires trace[k].entries[i].state == Armed && trace[k].kick[i] == trace[k].now
    requires mine == Handle(trace[k].entries[i].generation, i)
    requires FedInTime(steps, mine, k, n, Ticks(trace[k].entries[i].config.timeoutMs))
    ensures |trace[n].entries| == |trace[n].kick| == SLOTS && trace[n].entries[i] == trace[k].entries[i]
    ensures trace[n].now == trace[n].kick[i] + Since(steps, mine, k, n)
    ensures forall j :: k <= j < n ==> !Kills(steps[j], answers[j], i)
    decreases n
  {
    hide Ticks, Handle, Since, FedInTime, Next, Answer, Went, Sound;
    Sizes(steps, answers, trace, n);
    if k < n {
      FedStep(steps, mine, k, n, Ticks(trace[k].entries[i].config.timeoutMs));
      FedLives(steps, answers, trace, i, k, n - 1, mine);
      At(steps, answers, trace, n - 1);
      OneMove(steps[n - 1], trace[n - 1], i);
    } else {
      NotYet(steps, mine, k);
    }
  }

  predicate Kills(step: Step, answer: int, i: nat) { step.Call? && answer == i }

  lemma NotYet(steps: seq<Step>, handle: nat, k: nat)
    requires k <= |steps|
    ensures Since(steps, handle, k, k) == 0
  {
  }

  function KillCount(steps: seq<Step>, answers: seq<int>, i: nat, from: nat, till: nat): nat
    requires from <= till <= |steps| == |answers|
    decreases till
  {
    if till == from then 0
    else KillCount(steps, answers, i, from, till - 1) + if Kills(steps[till - 1], answers[till - 1], i) then 1 else 0
  }

  /** The budget: from its registration on, an entry is killed at most once more than
      it may be restarted. */
  lemma {:induction false} WithinBudget(steps: seq<Step>, answers: seq<int>, trace: seq<View>, i: nat, k: nat, n: nat)
    requires Ran(steps, answers, trace) && k <= n <= |steps| && i < SLOTS && |trace[k].entries| == SLOTS
    requires trace[k].entries[i].state == Armed && trace[k].entries[i].restarts == 0
    requires forall j :: k <= j < n ==> steps[j] != DoUnregister(Handle(trace[k].entries[i].generation, i))
    ensures |trace[n].entries| == SLOTS && trace[n].entries[i].state != Free
    ensures var e, f := trace[k].entries[i], trace[n].entries[i];
      && f.generation == e.generation && f.config == e.config && f.restarts <= f.config.restartMax
      && KillCount(steps, answers, i, k, n) == f.restarts + if f.state == Armed then 0 else 1
    ensures KillCount(steps, answers, i, k, n) <= trace[k].entries[i].config.restartMax + 1
    decreases n
  {
    hide Ticks, Handle, Next, Answer, Went, Sound;
    Sizes(steps, answers, trace, n);
    OneEntry(trace[n], i);
    if k < n {
      WithinBudget(steps, answers, trace, i, k, n - 1);
      At(steps, answers, trace, n - 1);
      OneMove(steps[n - 1], trace[n - 1], i);
      OneEntry(trace[n - 1], i);
    }
  }

  // ----- a tick kills what is overdue -----

  /** The timers that are due. */
  ghost function DueNow(v: View): seq<nat>
    requires InRanges(v.clock)
  {
    Due(v.clock.order, v.clock.expires, v.now)
  }

  lemma NoneOverdue(v: View)
    requires Sound(v) && v.pending < 0 && DueNow(v) == []
    ensures forall i :: 0 <= i < SLOTS ==> !Overdue(v, i)
  {
    hide Ticks, Listed;
    DueIs(v.clock.order, v.clock.expires, v.now);
    forall i | 0 <= i < SLOTS ensures !Overdue(v, i) {
      OneEntry(v, i);
      Inside(v.clock, i);
    }
  }

  lemma Inside(c: Clock, t: nat)
    requires InRanges(c) && Listed(c) && t < |c.active|
    ensures c.active[t] <==> t in c.order
  {
  }

  /** The two halves of the tick, one after the other. */
  ghost function Round(v: View): View
    requires Sound(v) && Sound(Next(Take, v))
  {
    Next(Call, Next(Take, v))
  }

  lemma NoRound(v: View)
    requires Sound(v) && v.pending < 0 && DueNow(v) == []
    ensures Sound(Next(Take, v)) && Round(v) == v
  {
    hide Ticks, EntryOk;
    DueIs(v.clock.order, v.clock.expires, v.now);
    assert v.clock.order != [] ==> v.clock.order[0] in v.clock.order;
  }

  lemma OneRound(v: View)
    requires Sound(v) && v.pending < 0 && Sound(Next(Take, v)) && DueNow(v) != [] && Sound(Round(v))
    ensures Round(v).pending < 0 && |DueNow(Round(v))| == |DueNow(v)| - 1
    ensures forall i :: 0 <= i < SLOTS ==>
      Round(v).entries[i] == v.entries[i] || (Overdue(v, i) && Round(v).entries[i] == Killed(v.entries[i]))
    ensures forall i :: 0 <= i < SLOTS ==> (Overdue(Round(v), i) <==> Overdue(v,
                                                                              i) && Round(v).entries[i] == v.entries[i])
  {
    hide Ticks, EntryOk, Due, Next, Listed, Stopped, Overdue;
    HeadDue(v.clock, v.now);
    var t := v.clock.order[0];
    TakeIs(v);
    var w := Next(Take, v);
    CallIs(w);
    OneLess(v.clock, v.now);
    forall i | 0 <= i < SLOTS
      ensures Round(v).entries[i] == v.entries[i] || (Overdue(v, i) && Round(v).entries[i] == Killed(v.entries[i]))
      ensures Overdue(Round(v), i) <==> Overdue(v, i) && Round(v).entries[i] == v.entries[i]
    {
      OverdueIs(v, w, i);
      if Round(v).entries[i] == v.entries[i] { OverdueIs(v, Round(v), i); } else { KilledIs(Round(v), i); }
    }
  }

  lemma TakeIs(v: View)
    requires Sound(v) && v.pending < 0 && v.clock.order != [] && v.clock.expires[v.clock.order[0]] <= v.now
    ensures Next(Take, v) == v.(pending := v.clock.order[0], clock := Stopped(v.clock, v.clock.order[0]))
  {
  }

  lemma CallIs(v: View)
    requires Sound(v) && v.pending >= 0
    ensures Next(Call, v) == v.(pending := -1, entries := if Overdue(v, v.pending) then
      v.entries[v.pending := Killed(v.entries[v.pending])] else v.entries)
  {
  }

  lemma OverdueIs(v: View, w: View, i: nat)
    requires i < |v.entries| == |v.kick| == |w.entries| == |w.kick| && w.now == v.now && w.kick == v.kick
    requires w.entries[i] == v.entries[i]
    ensures Overdue(v, i) == Overdue(w, i)
  {
  }

  lemma KilledIs(w: View, i: nat)
    requires i < |w.entries| == |w.kick| && w.entries[i].state != Armed
    ensures !Overdue(w, i)
  {
  }

  lemma OneLess(c: Clock, now: nat)
    requires InRanges(c) && Listed(c) && c.order != [] && c.expires[c.order[0]] <= now
    ensures InRanges(Stopped(c, c.order[0])) && Stopped(c, c.order[0]).expires == c.expires
    ensures |Due(Stopped(c, c.order[0]).order, c.expires, now)| == |Due(c.order, c.expires, now)| - 1
  {
    hide Due, Without;
    var t, rest := c.order[0], c.order[1..];
    assert c.order == [t] + rest;
    assert Cut(c.order, 0) == rest;
    CutWithout(c.order, 0);
    DueFirst(c.order, rest, c.expires, now, t);
  }

  lemma HeadDue(c: Clock, now: nat)
    requires InRanges(c) && Listed(c) && Due(c.order, c.expires, now) != []
    ensures c.order != [] && c.expires[c.order[0]] <= now
  {
    var u := Due(c.order, c.expires, now)[0];
    DueIs(c.order, c.expires, now);
    assert u in Due(c.order, c.expires, now);
    var j :| 0 <= j < |c.order| && c.order[j] == u;
    assert j == 0 || Sooner(c.expires, c.stamp, c.order[0], c.order[j]);
  }

  ghost predicate Ticking(steps: seq<Step>, k: nat, m: nat) {
    k + 2 * m <= |steps| && forall j :: k <= j < k + 2 * m ==> steps[j] == if (j - k) % 2 == 0 then Take else Call
  }

  /** A drained tick: enough rounds kill exactly the entries that were overdue, and none
      is overdue afterwards. */
  lemma {:induction false} TickKills(steps: seq<Step>, answers: seq<int>, trace: seq<View>, k: nat, m: nat)
    requires Ran(steps, answers, trace) && Ticking(steps, k, m)
    requires Sound(trace[k]) && trace[k].pending < 0 && m >= |DueNow(trace[k])|
    ensures var a, b := trace[k], trace[k + 2 * m];
      && Sound(b) && b.pending < 0
      && forall i :: 0 <= i < SLOTS ==> !Overdue(b, i) && b.entries[i] == if Overdue(a, i) then Killed(a.entries[i])
        else a.entries[i]
    decreases m
  {
    hide Next, Answer, Overdue, Killed, Sound, DueNow;
    Sizes(steps, answers, trace, k);
    if m == 0 {
      NoneOverdue(trace[k]);
    } else {
      Sizes(steps, answers, trace, k + 2 * m);
      At(steps, answers, trace, k);
      At(steps, answers, trace, k + 1);
      if DueNow(trace[k]) == [] { NoRound(trace[k]); } else { OneRound(trace[k]); }
      TickKills(steps, answers, trace, k + 2, m - 1);
    }
  }

  // ----- handles in a run -----

  ghost predicate Registers(step: Step, v: View, i: nat) {
    step.DoRegister? && step.config.timeoutMs > 0 && FirstFree(v.entries, 0) == i
  }

  ghost function Registrations(steps: seq<Step>, trace: seq<View>, i: nat, from: nat, till: nat): nat
    requires from <= till <= |steps| && till <= |trace|
    decreases till
  {
    if till == from then 0
    else Registrations(steps, trace, i, from, till - 1) + if Registers(steps[till - 1], trace[till - 1], i) then 1
    else 0
  }

  lemma {:induction false} GenerationAt(steps: seq<Step>, answers: seq<int>, trace: seq<View>, i: nat, k: nat, n: nat)
    requires Ran(steps, answers, trace) && k <= n <= |steps| && i < SLOTS
    requires |trace[k].entries| == |trace[n].entries| == SLOTS
    requires trace[k].entries[i].generation < GENERATIONS
    ensures trace[n].entries[i].generation == Later(trace[k].entries[i].generation,
                                                    Registrations(steps, trace, i, k, n))
    decreases n
  {
    hide Ticks, Next, Answer, Went, Sound, Overdue, NextGeneration;
    if k < n {
      Sizes(steps, answers, trace, n - 1);
      GenerationAt(steps, answers, trace, i, k, n - 1);
      At(steps, answers, trace, n - 1);
      OneMove(steps[n - 1], trace[n - 1], i);
      Registered(steps[n - 1], trace[n - 1], i);
    }
  }

  lemma Registered(step: Step, v: View, i: nat)
    requires Sound(v) && i < SLOTS
    ensures Registers(step, v, i) <==> step.DoRegister? && Answer(step, v) != 0 && FirstFree(v.entries, 0) == i
  {
    hide Ticks, Handle, EntryOk, Listed;
    if step.DoRegister? && FirstFree(v.entries, 0) == i { HandlePositive(NextGeneration(GenerationOf(v, i)), i); }
  }

  /** The handle of an entry, looked up at any later point of any run, finds its slot if
      and only if the slot is in use and was registered a multiple of 2^24 - 1 times
      since; it never finds another slot. */
  lemma HandleLater(steps: seq<Step>, answers: seq<int>, trace: seq<View>, i: nat, k: nat, n: nat)
    requires Ran(steps, answers, trace) && k <= n <= |steps| && i < SLOTS
    requires |trace[k].entries| == |trace[n].entries| == SLOTS
    requires trace[k].entries[i].state != Free
    ensures var found := Found(trace[n].entries, Handle(trace[k].entries[i].generation, i), SLOTS);
      && (found == -1 || found == i)
      && (found == i <==> trace[n].entries[i].state != Free && Registrations(steps, trace, i, k,
                                                                             n) % (GENERATIONS - 1) == 0)
  {
    hide Ticks, Went, Sound, Handle, Later;
    var g := trace[k].entries[i].generation;
    Sizes(steps, answers, trace, k);
    OneEntry(trace[k], i);
    GenerationAt(steps, answers, trace, i, k, n);
    StaleHandle(g, Registrations(steps, trace, i, k, n), i, i);
    var found := Found(trace[n].entries, Handle(g, i), SLOTS);
    if found >= 0 { OneSlot(trace[n].entries[found].generation, found, g, i); }
  }
}
