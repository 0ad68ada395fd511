/** Whole runs against the sector cache: any mixture of sector and byte
    transfers and flushes, through any partitions, with any pattern of driver
    failures, eviction and write-back underneath, reads as one flat disk on which
    the last write to each byte wins. */
module Traffic {
  import opened Flat
  import opened Cache

  datatype Op =
    | ReadBytes(dev: Dev, offset: nat, len: nat)
    | WriteBytes(dev: Dev, offset: nat, data: seq<bv8>)
    | ReadSectors(dev: Dev, lba: nat, count: nat)
    | WriteSectors(dev: Dev, lba: nat, sectors: seq<Sector>)
    | Flush(dev: Dev)

  /** The result code, the bytes or sectors a read brought, and how much of a
      write reached the cache. */
  datatype Reply = Reply(result: int, bytes: seq<bv8>, sectors: seq<Sector>, done: nat)

  ghost predicate Covers(op: Op, reply: Reply, root: nat, o: nat) {
    match op
    case WriteBytes(dev, offset, data) =>
      root == DiskOf(dev).id && Base(dev) + offset <= o < Base(dev) + offset + reply.done && reply.done <= |data|
    case WriteSectors(dev, lba, sectors) =>
      && root == DiskOf(dev).id && Offset(dev) + lba <= o / SECTOR_SIZE < Offset(dev) + lba + reply.done
      && reply.done <= |sectors|
    case _ => false
  }

  ghost function Put1(op: Op, reply: Reply, root: nat, o: nat): bv8
    requires Covers(op, reply, root, o)
  {
    match op
    case WriteBytes(dev, offset, data) => data[o - Base(dev) - offset]
    case WriteSectors(dev, lba, sectors) => sectors[o / SECTOR_SIZE - Offset(dev) - lba][o % SECTOR_SIZE]
  }

  /** The byte after an operation, from the byte before it. */
  ghost function ByteAfter(op: Op, reply: Reply, v: Disks, root: nat, o: nat): bv8
    requires InRange(v, root, o / SECTOR_SIZE)
  {
    if Covers(op, reply, root, o) then Put1(op, reply, root, o) else ByteAt(v, root, o)
  }

  ghost predicate Changed(op: Op, reply: Reply, v: Disks, w: Disks) {
    && SameShape(v, w)
    && forall r: nat, o: nat :: InRange(v, r, o / SECTOR_SIZE) ==> ByteAt(w, r, o) == ByteAfter(op, reply, v, r, o)
  }

  /** What an answer says about the disk it was taken from. */
  ghost predicate Truthful(op: Op, reply: Reply, v: Disks) {
    match op
    case ReadBytes(dev, offset, len) =>
      reply.result == 0 ==> |reply.bytes| == len && Spells(v, DiskOf(dev).id, Base(dev) + offset, reply.bytes)
    case ReadSectors(dev, lba, count) =>
      reply.result == 0 ==>
        && DiskOf(dev).id in v && Offset(dev) + lba + count <= |v[DiskOf(dev).id]|
        && reply.sectors == v[DiskOf(dev).id][Offset(dev) + lba..Offset(dev) + lba + count]
    case WriteBytes(dev, offset, data) => reply.done <= |data| && (reply.result == 0 ==> reply.done == |data|)
    case WriteSectors(dev, lba, sectors) => reply.done <= |sectors| && (reply.result == 0 ==> reply.done == |sectors|)
    case Flush(dev) => true
  }

  ghost predicate Did(op: Op, reply: Reply, v: Disks, w: Disks) {
    Changed(op, reply, v, w) && Truthful(op, reply, v)
  }

  /** What a request that is itself at fault is told: it reaches beyond the device, or writes to one that is
      read-only. */
  ghost function Refusal(op: Op): int {
    match op
    case ReadBytes(dev, offset, len) => if offset + len > dev.sectors * SECTOR_SIZE then EINVAL else 0
    case WriteBytes(dev, offset, data) =>
      if offset + |data| > dev.sectors * SECTOR_SIZE then EINVAL
      else if dev.readonly || DiskOf(dev).readonly then EROFS else 0
    case ReadSectors(dev, lba, count) => if !RangeOk(dev, lba, count) then EINVAL else 0
    case WriteSectors(dev, lba, sectors) =>
      if !RangeOk(dev, lba, |sectors|) then EINVAL else if dev.readonly || DiskOf(dev).readonly then EROFS else 0
    case Flush(dev) => 0
  }

  /** What stands behind the cache: how many requests the driver got, the buffers, the disks, and the flat disk they
      amount to. */
  datatype Pool = Pool(calls: nat, bufs: seq<Buf>, disks: Disks, view: Disks)

  /** A disk has on it what the flat disk has. */
  ghost predicate Settled(p: Pool, root: nat) { root in p.disks && root in p.view && p.disks[root] == p.view[root] }

  /** A request at fault is refused. Otherwise a failure has a reason, and the result tells it: the driver, or, unless
      sectors are only read, buffers none of which can be emptied; and a call during which the driver failed does not
      succeed. A flush that succeeds leaves the disk as the flat disk is, and it fails if a buffer cannot be written. */
  ghost predicate Justified(driver: nat -> Answer, sealed: set<nat>, op: Op, result: int, p: Pool, q: Pool) {
    && p.calls <= q.calls && (result >= 0 ==> Smooth(driver, p.calls, q.calls))
    && (Refusal(op) != 0 ==> result == Refusal(op))
    && match op
       case Flush(dev) =>
         if result >= 0 then Settled(q, DiskOf(dev).id) && !SomeStuck(p.bufs, sealed, DiskOf(dev).id)
         else
           || Answered(driver, p.calls, q.calls, result)
           || (result == EROFS && SomeStuck(q.bufs, sealed, DiskOf(dev).id))
       case ReadSectors(_, _, _) => result < 0 && Refusal(op) == 0 ==> Answered(driver, p.calls, q.calls, result)
       case _ =>
         result < 0 && Refusal(op) == 0 ==>
           Answered(driver, p.calls, q.calls, result) || Blocked(q.bufs, sealed, result)
  }

  ghost predicate AllJustified(driver: nat -> Answer, sealed: set<nat>, ops: seq<Op>, replies: seq<Reply>,
                               pools: seq<Pool>)
  {
    && |replies| == |ops| && |pools| == |ops| + 1
    && forall i :: 0 <= i < |ops| ==> Justified(driver, sealed, ops[i], replies[i].result, pools[i], pools[i + 1])
  }

  /** A run: one flat disk before and after each operation. */
  ghost predicate Ran(ops: seq<Op>, replies: seq<Reply>, trace: seq<Disks>) {
    && |replies| == |ops| && |trace| == |ops| + 1
    && forall i :: 0 <= i < |ops| ==> Did(ops[i], replies[i], trace[i], trace[i + 1])
  }

  method Run(cache: BlockCache, ops: seq<Op>)
    returns (ghost replies: seq<Reply>, ghost trace: seq<Disks>, ghost pools: seq<Pool>)
    requires cache.Valid() && forall i :: 0 <= i < |ops| ==> Attached(ops[i].dev, cache.disks)
    modifies cache`calls, cache`bufs, cache`disks, cache.lru, cache.index
    ensures cache.Valid() && SameShape(old(cache.disks), cache.disks)
    ensures Ran(ops, replies, trace) && trace[0] == old(cache.Disk()) && trace[|ops|] == cache.Disk()
    ensures AllJustified(cache.driver, cache.sealed, ops, replies, pools)
    ensures pools[0] == old(Behind(cache)) && pools[|ops|] == Behind(cache)
    ensures forall i :: 0 <= i <= |ops| ==> pools[i].view == trace[i]
  {
    hide Attached, BlockCache.Valid, BlockCache.Disk, Did, SameShape, Justified, Behind;
    replies, trace, pools := [], [cache.Disk()], [Behind(cache)];
    Shown(cache);
    ShapeRefl(cache.disks);
    var i := 0;
    while i < |ops|
      invariant 0 <= i <= |ops| && cache.Valid() && SameShape(old(cache.disks), cache.disks)
      invariant Ran(ops[..i], replies, trace) && trace[0] == old(cache.Disk()) && trace[i] == cache.Disk()
      invariant AllJustified(cache.driver, cache.sealed, ops[..i], replies, pools) && pools[0] == old(Behind(cache))
      invariant pools[i] == Behind(cache)
      invariant forall j :: 0 <= j <= i ==> pools[j].view == trace[j]
    {
      ghost var reply;
      StillAttached(ops[i].dev, old(cache.disks), cache.disks);
      ghost var between := cache.disks;
      reply := Do(cache, ops[i]);
      ShapeTrans(old(cache.disks), between, cache.disks);
      JustifiedMore(cache.driver, cache.sealed, ops[..i], replies, pools, ops[i], reply, Behind(cache));
      RanMore(ops[..i], replies, trace, ops[i], reply, cache.Disk());
      assert ops[..i] + [ops[i]] == ops[..i + 1];
      Shown(cache);
      replies, trace, pools, i := replies + [reply], trace + [cache.Disk()], pools + [Behind(cache)], i + 1;
    }
    assert ops[..i] == ops;
  }

  lemma ShapeRefl(v: Disks)
    ensures SameShape(v, v)
  {
  }

  lemma ShapeTrans(u: Disks, v: Disks, w: Disks)
    requires SameShape(u, v) && SameShape(v, w)
    ensures SameShape(u, w)
  {
  }

  ghost function Behind(cache: BlockCache): Pool
    reads cache
  {
    Pool(cache.calls, cache.bufs, cache.disks, cache.Disk())
  }

  lemma Shown(cache: BlockCache)
    ensures Behind(cache).view == cache.Disk()
  {
  }

  lemma JustifiedMore(driver: nat -> Answer, sealed: set<nat>, ops: seq<Op>, replies: seq<Reply>, pools: seq<Pool>,
                      op: Op, reply: Reply,
                      q: Pool)
    requires AllJustified(driver, sealed, ops, replies, pools)
    requires Justified(driver, sealed, op, reply.result, pools[|ops|], q)
    ensures AllJustified(driver, sealed, ops + [op], replies + [reply], pools + [q])
  {
    hide Justified;
  }

  lemma RanMore(ops: seq<Op>, replies: seq<Reply>, trace: seq<Disks>, op: Op, reply: Reply, w: Disks)
    requires Ran(ops, replies, trace) && Did(op, reply, trace[|ops|], w)
    ensures Ran(ops + [op], replies + [reply], trace + [w])
  {
  }

  method Do(cache: BlockCache, op: Op) returns (ghost reply: Reply)
    requires cache.Valid() && Attached(op.dev, cache.disks)
    modifies cache`calls, cache`bufs, cache`disks, cache.lru, cache.index
    ensures cache.Valid() && SameShape(old(cache.disks), cache.disks) && SamePins(old(cache.bufs), cache.bufs)
    ensures Did(op, reply, old(cache.Disk()), cache.Disk())
    ensures Justified(cache.driver, cache.sealed, op, reply.result, old(Behind(cache)), Behind(cache))
  {
    hide Attached, BlockCache.Valid, BlockCache.Disk, Wrote, PutAll, Spells, Changed, SamePins, Answered, Smooth;
    hide Blocked;
    PinsAre(cache.bufs, cache.bufs, 0);
    ghost var v := cache.Disk();
    cache.ShapeOf();
    Present(op.dev, cache.disks);
    match op
    case ReadBytes(dev, offset, len) =>
      var r, bytes := cache.ReadBytes(dev, offset, len);
      reply := Reply(r, bytes, [], 0);
      Unchanged(op, reply, v);
    case WriteBytes(dev, offset, data) =>
      var r, done := cache.WriteBytes(dev, offset, data);
      reply := Reply(r, [], [], done);
      BytesChanged(op, reply, v, cache.Disk());
    case ReadSectors(dev, lba, count) =>
      var r, sectors := cache.Read(dev, lba, count);
      reply := Reply(r, [], sectors, 0);
      Unchanged(op, reply, v);
    case WriteSectors(dev, lba, sectors) =>
      var r, done := cache.Write(dev, lba, sectors);
      reply := Reply(r, [], [], done);
      SectorsChanged(op, reply, v, cache.Disk());
    case Flush(dev) =>
      var r := cache.Flush(dev);
      reply := Reply(r, [], [], 0);
      Unchanged(op, reply, v);
  }

  lemma Present(dev: Dev, disks: Disks)
    requires Attached(dev, disks)
    ensures DiskOf(dev).id in disks
  {
  }

  lemma Unchanged(op: Op, reply: Reply, v: Disks)
    requires reply.done == 0
    ensures Changed(op, reply, v, v)
  {
  }

  lemma BytesChanged(op: Op, reply: Reply, v: Disks, w: Disks)
    requires op.WriteBytes? && reply.done <= |op.data|
    requires Wrote(v, w, DiskOf(op.dev).id, Base(op.dev) + op.offset, op.data[..reply.done])
    ensures Changed(op, reply, v, w)
  {
    hide ByteAt, Base, Offset, DiskOf;
  }

  lemma SectorsChanged(op: Op, reply: Reply, v: Disks, w: Disks)
    requires op.WriteSectors? && reply.done <= |op.sectors|
    requires reply.done == 0 ==> w == v
    requires reply.done > 0 ==>
      && DiskOf(op.dev).id in v && Offset(op.dev) + op.lba + reply.done <= |v[DiskOf(op.dev).id]|
      && w == PutAll(v, DiskOf(op.dev).id, Offset(op.dev) + op.lba, op.sectors[..reply.done])
    ensures Changed(op, reply, v, w)
  {
    hide PutAll;
    if reply.done > 0 {
      forall r: nat, o: nat | InRange(v, r, o / SECTOR_SIZE)
        ensures ByteAt(w, r, o) == ByteAfter(op, reply, v, r, o)
      {
        PutAllAt(v, DiskOf(op.dev).id, Offset(op.dev) + op.lba, op.sectors[..reply.done], r, o / SECTOR_SIZE);
      }
    }
  }

  // ----- what every run promises -----

  /** A byte that no operation of a stretch of the run covers does not move. */
  lemma {:induction false} Untouched(ops: seq<Op>, replies: seq<Reply>, trace: seq<Disks>, from: nat, till: nat,
                                     root: nat, o: nat)
    requires Ran(ops, replies, trace) && from <= till <= |ops| && InRange(trace[from], root, o / SECTOR_SIZE)
    requires forall j :: from <= j < till ==> !Covers(ops[j], replies[j], root, o)
    ensures InRange(trace[till], root, o / SECTOR_SIZE) && ByteAt(trace[till], root, o) == ByteAt(trace[from], root, o)
    decreases till
  {
    hide ByteAt;
    if from < till {
      Untouched(ops, replies, trace, from, till - 1, root, o);
      assert Did(ops[till - 1], replies[till - 1], trace[till - 1], trace[till]);
    }
  }

  /** Last write wins: a later successful read of a byte returns what the last
      operation covering it wrote, whichever partition either went through. */
  lemma LastWriteWins(ops: seq<Op>, replies: seq<Reply>, trace: seq<Disks>, k: nat, n: nat, at: nat)
    requires Ran(ops, replies, trace) && k < n < |ops|
    requires ops[n].ReadBytes? && replies[n].result == 0 && at < ops[n].len
    requires var root, o := DiskOf(ops[n].dev).id, Base(ops[n].dev) + ops[n].offset + at;
      && Covers(ops[k], replies[k], root, o)
      && forall j :: k < j < n ==> !Covers(ops[j], replies[j], root, o)
    ensures at < |replies[n].bytes|
    ensures replies[n].bytes[at] ==
      Put1(ops[k], replies[k], DiskOf(ops[n].dev).id, Base(ops[n].dev) + ops[n].offset + at)
  {
    hide ByteAt, Covers, Put1;
    var root, o := DiskOf(ops[n].dev).id, Base(ops[n].dev) + ops[n].offset + at;
    assert Did(ops[n], replies[n], trace[n], trace[n + 1]);
    assert Shows(trace[n], root, o, replies[n].bytes[at]);
    Reaches(ops, replies, trace, 0, n, root, o);
    assert Did(ops[k], replies[k], trace[k], trace[k + 1]);
    Untouched(ops, replies, trace, k + 1, n, root, o);
  }

  /** The shape of the disk never changes. */
  lemma {:induction false} Reaches(ops: seq<Op>, replies: seq<Reply>, trace: seq<Disks>, from: nat, n: nat, root: nat,
                                   o: nat)
    requires Ran(ops, replies, trace) && from <= n <= |ops| && InRange(trace[n], root, o / SECTOR_SIZE)
    ensures forall j :: from <= j <= n ==> InRange(trace[j], root, o / SECTOR_SIZE)
    decreases n
  {
    hide Truthful;
    if from < n {
      assert Did(ops[n - 1], replies[n - 1], trace[n - 1], trace[n]);
      Reaches(ops, replies, trace, from, n - 1, root, o);
    }
  }
}
