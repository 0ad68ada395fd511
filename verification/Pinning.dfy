/** Whole runs with buffers held across calls: bread, bnew, bdirty and brelse between any
    transfers and flushes. A held buffer always shows its sector as the flat disk has it,
    whoever wrote it last, and what is stored into it is on the flat disk at once. */
module Pinning {
  import opened Flat
  import opened Cache
  import Traffic

  datatype Op =
    | Plain(op: Traffic.Op)
    | Bread(dev: Dev, lba: nat)
    | Bnew(dev: Dev, lba: nat)
    | Look(k: nat)
    | Store(k: nat, data: Sector)
    | Brelse(k: nat)

  /** The sector a held buffer stands for. */
  datatype Place = Place(root: nat, lba: nat)

  /** The flat disk and the buffers held, in the order they were taken. */
  datatype State = State(disk: Disks, held: seq<Place>)

  datatype Reply = Reply(result: int, sector: Sector, plain: Traffic.Reply)

  ghost predicate Did(op: Op, reply: Reply, a: State, b: State) {
    match op
    case Plain(p) => Traffic.Did(p, reply.plain, a.disk, b.disk) && b.held == a.held
    case Bread(dev, lba) =>
      var p := Place(DiskOf(dev).id, Offset(dev) + lba);
      b == (if reply.result == 0 then a.(held := a.held + [p]) else a) && (reply.result == 0 ==> OnDisk(a.disk, p))
    case Bnew(dev, lba) =>
      var p := Place(DiskOf(dev).id, Offset(dev) + lba);
      if reply.result == 0 then OnDisk(a.disk, p) && b == State(Put(a.disk, p.root, p.lba, ZeroSector()), a.held + [p])
      else b == a
    case Look(k) =>
      && b == a && (reply.result == 0 <==> k < |a.held|)
      && (k < |a.held| ==> OnDisk(a.disk, a.held[k]) && reply.sector == a.disk[a.held[k].root][a.held[k].lba])
    case Store(k, data) =>
      && (reply.result == 0 <==> k < |a.held|)
      && if k < |a.held|
         then OnDisk(a.disk, a.held[k]) && b == a.(disk := Put(a.disk, a.held[k].root, a.held[k].lba, data))
         else b == a
    case Brelse(k) => b == if k < |a.held| then a.(held := a.held[..k] + a.held[k + 1..]) else a
  }

  ghost predicate OnDisk(v: Disks, p: Place) { InRange(v, p.root, p.lba) }

  ghost predicate Ran(ops: seq<Op>, replies: seq<Reply>, trace: seq<State>) {
    && |replies| == |ops| && |trace| == |ops| + 1
    && forall i :: 0 <= i < |ops| ==> Did(ops[i], replies[i], trace[i], trace[i + 1])
  }

  /** A buffer was had, without a failure of the driver; or the result tells why not: the driver, or buffers none of
      which can be emptied. */
  ghost predicate Taken(driver: nat -> Answer, sealed: set<nat>, result: int, p: Traffic.Pool, q: Traffic.Pool) {
    if result < 0 then Answered(driver, p.calls, q.calls, result) || Blocked(q.bufs, sealed, result)
    else Smooth(driver, p.calls, q.calls)
  }

  /** A request at fault is refused, and every other failure has a reason. */
  ghost predicate Justified(driver: nat -> Answer, sealed: set<nat>, op: Op, reply: Reply, p: Traffic.Pool,
                            q: Traffic.Pool)
  {
    match op
    case Plain(plain) => Traffic.Justified(driver, sealed, plain, reply.plain.result, p, q)
    case Bread(dev, lba) =>
      if !RangeOk(dev, lba, 1) then reply.result == EINVAL else Taken(driver, sealed, reply.result, p, q)
    case Bnew(dev, lba) =>
      if !RangeOk(dev, lba, 1) then reply.result == EINVAL
      else if dev.readonly || DiskOf(dev).readonly then reply.result == EROFS
      else Taken(driver, sealed, reply.result, p, q)
    case _ => true
  }

  // ----- handles -----

  /** Each handle is a buffer that stands for its place, and every buffer has at least as
      many pins as there are handles of it. */
  ghost predicate Holding(bufs: seq<Buf>, handles: seq<nat>, held: seq<Place>) {
    && |held| == |handles|
    && (forall k :: 0 <= k < |handles| ==> handles[k] < |bufs| && Caches(bufs[handles[k]], held[k].root, held[k].lba))
    && forall b :: 0 <= b < |bufs| ==> multiset(handles)[b] <= bufs[b].refs
  }

  lemma HandlePinned(bufs: seq<Buf>, handles: seq<nat>, held: seq<Place>, k: nat)
    requires Holding(bufs, handles, held) && k < |handles|
    ensures handles[k] < |bufs| && Caches(bufs[handles[k]], held[k].root, held[k].lba) && bufs[handles[k]].refs > 0
  {
    assert handles[k] in multiset(handles);
  }

  lemma StillHolding(before: seq<Buf>, bufs: seq<Buf>, handles: seq<nat>, held: seq<Place>)
    requires Holding(before, handles, held) && SamePins(before, bufs)
    ensures Holding(bufs, handles, held)
  {
    forall k | 0 <= k < |handles| ensures handles[k] < |bufs| && Caches(bufs[handles[k]], held[k].root, held[k].lba) {
      HandlePinned(before, handles, held, k);
      assert PinSame(before[handles[k]], bufs[handles[k]]);
    }
    forall b | 0 <= b < |bufs| ensures multiset(handles)[b] <= bufs[b].refs { assert PinSame(before[b], bufs[b]); }
  }

  lemma OneMore(before: seq<Buf>, bufs: seq<Buf>, handles: seq<nat>, held: seq<Place>, b: nat, p: Place)
    requires Holding(before, handles, held) && OnePin(before, bufs, b) && Caches(bufs[b], p.root, p.lba)
    ensures Holding(bufs, handles + [b], held + [p])
  {
    var now, places := handles + [b], held + [p];
    forall k | 0 <= k < |now| ensures now[k] < |bufs| && Caches(bufs[now[k]], places[k].root, places[k].lba) {
      if k < |handles| {
        HandlePinned(before, handles, held, k);
        if now[k] != b { assert PinSame(before[now[k]], bufs[now[k]]); }
      }
    }
    forall i | 0 <= i < |bufs| ensures multiset(now)[i] <= bufs[i].refs {
      assert multiset(now)[i] == multiset(handles)[i] + if i == b then 1 else 0;
      if i != b { assert PinSame(before[i], bufs[i]); }
    }
  }

  lemma OneLess(bufs: seq<Buf>, handles: seq<nat>, held: seq<Place>, k: nat)
    requires Holding(bufs, handles, held) && k < |handles|
    ensures handles[k] < |bufs| && bufs[handles[k]].refs > 0
    ensures var b := handles[k];
      Holding(bufs[b := bufs[b].(refs := bufs[b].refs - 1)], handles[..k] + handles[k + 1..], held[..k] + held[k + 1..])
  {
    HandlePinned(bufs, handles, held, k);
    var b := handles[k];
    var now := bufs[b := bufs[b].(refs := bufs[b].refs - 1)];
    var rest, places := Without(handles, k), Without(held, k);
    WithoutIs(handles, k);
    WithoutIs(held, k);
    hide Without;
    forall j | 0 <= j < |rest| ensures rest[j] < |now| && Caches(now[rest[j]], places[j].root, places[j].lba) {
      var i := if j < k then j else j + 1;
      assert rest[j] == handles[i] && places[j] == held[i];
    }
    forall i | 0 <= i < |now| ensures multiset(rest)[i] <= now[i].refs {
      assert multiset(handles)[i] == multiset(rest)[i] + if i == b then 1 else 0;
    }
  }

  function Without<T>(s: seq<T>, k: nat): seq<T>
    requires k < |s|
  {
    s[..k] + s[k + 1..]
  }

  lemma WithoutIs<T>(s: seq<T>, k: nat)
    requires k < |s|
    ensures |Without(s, k)| == |s| - 1
    ensures forall j :: 0 <= j < |s| - 1 ==> Without(s, k)[j] == s[if j < k then j else j + 1]
    ensures multiset(s) == multiset(Without(s, k)) + multiset{s[k]}
  {
    assert s == s[..k] + [s[k]] + s[k + 1..];
  }

  // ----- one operation -----

  method Do(cache: BlockCache, op: Op, handles: seq<nat>, ghost held: seq<Place>)
    returns (ghost reply: Reply, now: seq<nat>, ghost places: seq<Place>)
    requires cache.Valid() && Holding(cache.bufs, handles, held) && Named(op, cache.disks)
    modifies cache`calls, cache`bufs, cache`disks, cache.lru, cache.index
    ensures cache.Valid() && SameShape(old(cache.disks), cache.disks) && Holding(cache.bufs, now, places)
    ensures Did(op, reply, State(old(cache.Disk()), held), State(cache.Disk(), places))
    ensures Justified(cache.driver, cache.sealed, op, reply, old(Traffic.Behind(cache)), Traffic.Behind(cache))
  {
    hide Attached, BlockCache.Valid, BlockCache.Disk, Traffic.Did, Traffic.Justified, Holding, SamePins, SameShape;
    hide Answered, Smooth, Blocked;
    now, places := handles, held;
    if op.Plain? {
      ghost var plain := Traffic.Do(cache, op.op);
      StillHolding(old(cache.bufs), cache.bufs, handles, held);
      reply := Reply(0, ZeroSector(), plain);
    } else if op.Bread? || op.Bnew? {
      reply, now, places := DoTake(cache, op, handles, held);
    } else {
      reply, now, places := DoHeld(cache, op, handles, held);
    }
  }

  /** The devices of an operation are there. */
  ghost predicate Named(op: Op, disks: Disks) {
    (op.Plain? ==> Attached(op.op.dev, disks)) && (op.Bread? || op.Bnew? ==> Attached(op.dev, disks))
  }

  const NO_REPLY := Traffic.Reply(0, [], [], 0)

  /** bread and bnew. */
  method DoTake(cache: BlockCache, op: Op, handles: seq<nat>, ghost held: seq<Place>)
    returns (ghost reply: Reply, now: seq<nat>, ghost places: seq<Place>)
    requires cache.Valid() && Holding(cache.bufs, handles, held) && (op.Bread? || op.Bnew?)
    requires Attached(op.dev, cache.disks)
    modifies cache`calls, cache`bufs, cache`disks, cache.lru, cache.index
    ensures cache.Valid() && SameShape(old(cache.disks), cache.disks) && Holding(cache.bufs, now, places)
    ensures Did(op, reply, State(old(cache.Disk()), held), State(cache.Disk(), places))
    ensures Justified(cache.driver, cache.sealed, op, reply, old(Traffic.Behind(cache)), Traffic.Behind(cache))
  {
    hide Attached, BlockCache.Valid, BlockCache.Disk, Holding, SamePins, OnePin, PinsKept;
    var r, b := cache.Acquire(op.dev, op.lba, op.Bread?);
    reply := Reply(r, ZeroSector(), NO_REPLY);
    now, places := handles, held;
    PinsAre(old(cache.bufs), cache.bufs, 0);
    if r < 0 {
      StillHolding(old(cache.bufs), cache.bufs, handles, held);
      return;
    }
    ghost var p := Place(DiskOf(op.dev).id, Offset(op.dev) + op.lba);
    OneMore(old(cache.bufs), cache.bufs, handles, held, b, p);
    now, places := handles + [b], held + [p];
  }

  /** What is done to a buffer that is held. */
  method DoHeld(cache: BlockCache, op: Op, handles: seq<nat>, ghost held: seq<Place>)
    returns (ghost reply: Reply, now: seq<nat>, ghost places: seq<Place>)
    requires cache.Valid() && Holding(cache.bufs, handles, held) && (op.Look? || op.Store? || op.Brelse?)
    modifies cache`bufs
    ensures cache.Valid() && cache.disks == old(cache.disks) && Holding(cache.bufs, now, places)
    ensures Did(op, reply, State(old(cache.Disk()), held), State(cache.Disk(), places))
    ensures SameShape(old(cache.disks), cache.disks)
  {
    hide Holding, Seen, Flat.Look, Coherent, BlockCache.Lists, SamePins, OnePin, PinsKept;
    Lengths(cache.bufs, handles, held);
    now, places := handles, held;
    if op.k >= |handles| {
      reply := Reply(-1, ZeroSector(), NO_REPLY);
      return;
    }
    HandlePinned(cache.bufs, handles, held, op.k);
    var b := handles[op.k];
    CachedSector(cache.bufs, cache.disks, b);
    cache.ShapeOf();
    reply := Reply(0, cache.bufs[b].data, NO_REPLY);
    if op.Store? {
      ghost var before := cache.bufs;
      Pending(cache.bufs, cache.disks, b);
      cache.Modify(b, op.data);
      Rewritten(before, b, op.data, handles, held);
    } else if op.Brelse? {
      OneLess(cache.bufs, handles, held, op.k);
      cache.Release(b);
      now, places := handles[..op.k] + handles[op.k + 1..], held[..op.k] + held[op.k + 1..];
    }
  }

  lemma Lengths(bufs: seq<Buf>, handles: seq<nat>, held: seq<Place>)
    requires Holding(bufs, handles, held)
    ensures |held| == |handles|
  {
  }

  lemma Rewritten(bufs: seq<Buf>, b: nat, data: Sector, handles: seq<nat>, held: seq<Place>)
    requires Holding(bufs, handles, held) && b < |bufs|
    ensures Holding(bufs[b := bufs[b].(data := data, dirty := true)], handles, held)
  {
  }

  // ----- whole runs -----

  /** Any operations, with any pattern of driver failures, evictions and write-backs
      underneath, starting and ending with any buffers held. */
  method Run(cache: BlockCache, ops: seq<Op>, handles: seq<nat>, ghost held: seq<Place>)
    returns (ghost replies: seq<Reply>, now: seq<nat>, ghost trace: seq<State>, ghost pools: seq<Traffic.Pool>)
    requires cache.Valid() && Holding(cache.bufs, handles, held)
    requires forall i :: 0 <= i < |ops| ==> Named(ops[i], cache.disks)
    modifies cache`calls, cache`bufs, cache`disks, cache.lru, cache.index
    ensures cache.Valid() && SameShape(old(cache.disks), cache.disks)
    ensures Ran(ops, replies, trace) && trace[0] == State(old(cache.Disk()), held)
    ensures trace[|ops|].disk == cache.Disk() && Holding(cache.bufs, now, trace[|ops|].held)
    ensures |pools| == |ops| + 1 && forall i :: 0 <= i <= |ops| ==> pools[i].view == trace[i].disk
    ensures pools[0] == old(Traffic.Behind(cache)) && pools[|ops|] == Traffic.Behind(cache)
    ensures forall i :: 0 <= i < |ops| ==> Justified(cache.driver, cache.sealed, ops[i], replies[i], pools[i],
                                                     pools[i + 1])
  {
    hide BlockCache.Valid, BlockCache.Disk, Holding, Did, Named, SameShape, Justified, Traffic.Behind;
    now := handles;
    ghost var places := held;
    replies, trace, pools := [], [State(cache.Disk(), held)], [Traffic.Behind(cache)];
    Traffic.Shown(cache);
    Traffic.ShapeRefl(cache.disks);
    for i := 0 to |ops|
      invariant cache.Valid() && SameShape(old(cache.disks), cache.disks) && Holding(cache.bufs, now, places)
      invariant |replies| == i && |trace| == i + 1 && trace[0] == State(old(cache.Disk()), held)
      invariant trace[i] == State(cache.Disk(), places)
      invariant forall j :: 0 <= j < i ==> Did(ops[j], replies[j], trace[j], trace[j + 1])
      invariant |pools| == i + 1 && forall j :: 0 <= j <= i ==> pools[j].view == trace[j].disk
      invariant pools[0] == old(Traffic.Behind(cache)) && pools[i] == Traffic.Behind(cache)
      invariant forall j :: 0 <= j < i ==> Justified(cache.driver, cache.sealed, ops[j], replies[j], pools[j],
                                                     pools[j + 1])
    {
      StillNamed(ops[i], old(cache.disks), cache.disks);
      ghost var between := cache.disks;
      ghost var reply;
      reply, now, places := Do(cache, ops[i], now, places);
      Traffic.ShapeTrans(old(cache.disks), between, cache.disks);
      replies, trace := replies + [reply], trace + [State(cache.Disk(), places)];
      pools := pools + [Traffic.Behind(cache)];
      Traffic.Shown(cache);
    }
  }

  lemma StillNamed(op: Op, v: Disks, w: Disks)
    requires Named(op, v) && SameShape(v, w)
    ensures Named(op, w)
  {
    if op.Plain? { StillAttached(op.op.dev, v, w); }
    if op.Bread? || op.Bnew? { StillAttached(op.dev, v, w); }
  }

  /** The operation puts something into this sector. */
  ghost predicate Covers(op: Op, reply: Reply, a: State, p: Place) {
    match op
    case Plain(q) => exists o: nat :: o / SECTOR_SIZE == p.lba && Traffic.Covers(q, reply.plain, p.root, o)
    case Bnew(dev, lba) => reply.result == 0 && p == Place(DiskOf(dev).id, Offset(dev) + lba)
    case Store(k, data) => k < |a.held| && a.held[k] == p
    case _ => false
  }

  /** A sector that no operation of a stretch of the run covers does not move. */
  lemma {:induction false} Untouched(ops: seq<Op>, replies: seq<Reply>, trace: seq<State>, from: nat, till: nat,
                                     p: Place)
    requires Ran(ops, replies, trace) && from <= till <= |ops| && OnDisk(trace[from].disk, p)
    requires forall j :: from <= j < till ==> !Covers(ops[j], replies[j], trace[j], p)
    ensures OnDisk(trace[till].disk, p) && trace[till].disk[p.root][p.lba] == trace[from].disk[p.root][p.lba]
    decreases till
  {
    hide Covers, Did;
    if from < till {
      Untouched(ops, replies, trace, from, till - 1, p);
      Unmoved(ops[till - 1], replies[till - 1], trace[till - 1], trace[till], p);
    }
  }

  lemma Unmoved(op: Op, reply: Reply, a: State, b: State, p: Place)
    requires Did(op, reply, a, b) && OnDisk(a.disk, p) && !Covers(op, reply, a, p)
    ensures OnDisk(b.disk, p) && b.disk[p.root][p.lba] == a.disk[p.root][p.lba]
  {
    if op.Plain? {
      var x, y := a.disk[p.root][p.lba], b.disk[p.root][p.lba];
      forall i: nat | i < SECTOR_SIZE ensures y[i] == x[i] {
        var o: nat := p.lba * SECTOR_SIZE + i;
        assert o / SECTOR_SIZE == p.lba && o % SECTOR_SIZE == i;
        assert ByteAt(b.disk, p.root, o) == Traffic.ByteAfter(op.op, reply.plain, a.disk, p.root, o);
      }
    }
  }

  /** What was stored into a held buffer is what any buffer held for that sector shows
      later, until something covers the sector again: the two handles may differ, and the
      first may have been given back and its buffer evicted. */
  lemma StoreShows(ops: seq<Op>, replies: seq<Reply>, trace: seq<State>, i: nat, n: nat)
    requires Ran(ops, replies, trace) && i < n < |ops|
    requires ops[i].Store? && ops[i].k < |trace[i].held| && ops[n].Look? && ops[n].k < |trace[n].held|
    requires trace[n].held[ops[n].k] == trace[i].held[ops[i].k]
    requires forall j :: i < j < n ==> !Covers(ops[j], replies[j], trace[j], trace[i].held[ops[i].k])
    ensures replies[n].sector == ops[i].data
  {
    hide Covers;
    var p := trace[i].held[ops[i].k];
    assert Did(ops[i], replies[i], trace[i], trace[i + 1]);
    assert Did(ops[n], replies[n], trace[n], trace[n + 1]);
    Untouched(ops, replies, trace, i + 1, n, p);
  }
}
