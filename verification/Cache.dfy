/** The sector cache of src/drivers/block/blk.c: a fixed pool of buffers, an LRU
    list, hash chains, pins and write-back. */
module Cache {
  import opened Links
  import opened Flat

  const BUCKETS := 64
  const READ_RUN := 64
  const EIO := -5
  const EINVAL := -22
  const EBUSY := -16
  const EROFS := -30

  // ----- devices -----

  /** A whole disk, or a partition inside another device. */
  datatype Dev =
    | Root(id: nat, sectors: nat, readonly: bool)
    | Part(parent: Dev, start: nat, sectors: nat, readonly: bool)

  /** Partitions lie inside their parents, as registration demands. */
  predicate Nested(dev: Dev) {
    dev.Part? ==> dev.start + dev.sectors <= dev.parent.sectors && Nested(dev.parent)
  }

  function DiskOf(dev: Dev): (root: Dev)
    ensures root.Root?
  {
    if dev.Root? then dev else DiskOf(dev.parent)
  }

  function Offset(dev: Dev): nat {
    if dev.Root? then 0 else dev.start + Offset(dev.parent)
  }

  lemma {:induction false} InsideDisk(dev: Dev)
    requires Nested(dev)
    ensures Offset(dev) + dev.sectors <= DiskOf(dev).sectors
  {
    if dev.Part? { InsideDisk(dev.parent); }
  }

  /** root_of: climbs to the physical disk, adding up the offsets. */
  method RootOf(device: Dev, lba: nat) returns (root: Dev, absolute: nat)
    ensures root == DiskOf(device) && absolute == lba + Offset(device)
  {
    var dev, abs := device, lba;
    while dev.Part?
      invariant abs + Offset(dev) == lba + Offset(device) && DiskOf(dev) == DiskOf(device)
      decreases dev
    {
      abs := abs + dev.start;
      dev := dev.parent;
    }
    return dev, abs;
  }

  predicate RangeOk(dev: Dev, lba: nat, count: nat) {
    count > 0 && lba <= dev.sectors && count <= dev.sectors - lba
  }

  predicate OnDevice(dev: Dev, sector: nat) { sector < dev.sectors }

  /** A request is in range exactly if it names a sector and only sectors of the device. */
  lemma RangeIs(dev: Dev, lba: nat, count: nat)
    ensures RangeOk(dev, lba, count) <==>
      count > 0 && forall s: nat :: lba <= s < lba + count ==> OnDevice(dev, s)
  {
    if count > 0 && forall s: nat :: lba <= s < lba + count ==> OnDevice(dev, s) {
      assert OnDevice(dev, lba + count - 1);
    }
  }

  // ----- the recency list -----

  class Lru {
    var prev: seq<int>
    var next: seq<int>
    var head: int
    var tail: int
    ghost var order: seq<nat>

    ghost predicate Valid()
      reads this
    {
      && |prev| == |next| && Unique(order)
      && Forward(next, head, order) && Backward(prev, tail, order)
    }

    /** blk_init: every buffer of the pool, pushed in turn. */
    constructor (n: nat)
      ensures Valid() && |next| == n && UpTo(order, n)
    {
      prev, next := seq(n, _ => -1), seq(n, _ => -1);
      head, tail, order := -1, -1, [];
      new;
      hide Forward, Backward, Unique, UpTo;
      NoLinks(prev, next);
      for i := 0 to n
        invariant Valid() && |next| == n && UpTo(order, i)
      {
        OneMore(order, i);
        PushFront(i);
      }
    }

    method Remove(b: nat)
      requires Valid() && b in order
      modifies this
      ensures Valid() && |next| == |old(next)|
      ensures exists k :: 0 <= k < |old(order)| && old(order)[k] == b && order == Cut(old(order), k)
    {
      hide Forward, Backward;
      ghost var k :| 0 <= k < |order| && order[k] == b;
      ghost var prev0, next0, head0, tail0 := prev, next, head, tail;
      LinksOf(prev, next, head, tail, order, k);
      if prev[b] >= 0 { next := next[prev[b] := next[b]]; } else { head := next[b]; }
      if next[b] >= 0 { prev := prev[next[b] := prev[b]]; } else { tail := prev[b]; }
      prev, next := prev[b := -1], next[b := -1];
      ForwardCut(next0, head0, order, k, next, head);
      BackwardCut(prev0, tail0, order, k, prev, tail);
      CutFacts(order, k);
      order := Cut(order, k);
    }

    method PushFront(b: nat)
      requires Valid() && b < |next| && b !in order
      modifies this
      ensures Valid() && |next| == |old(next)| && order == [b] + old(order)
    {
      hide Forward, Backward;
      ghost var prev0 := prev;
      HeadTail(prev, next, head, tail, order);
      prev, next := prev[b := -1], next[b := head];
      if head >= 0 { prev := prev[head := b]; }
      ForwardPush(old(next), old(head), order, b);
      BackwardPush(prev0, old(tail), order, b, prev);
      head := b;
      if tail < 0 { tail := b; }
      order := [b] + order;
    }

    /** lru_touch: to the front, everybody else in the same order. */
    method Touch(b: nat)
      requires Valid() && b in order
      modifies this
      ensures Valid() && |next| == |old(next)|
      ensures exists k :: 0 <= k < |old(order)| && old(order)[k] == b && order == [b] + Cut(old(order), k)
    {
      if head == b {
        assert order == [b] + Cut(order, 0);
        return;
      }
      ghost var before := order;
      Remove(b);
      ghost var k :| 0 <= k < |before| && before[k] == b && order == Cut(before, k);
      CutFacts(before, k);
      assert b < |next| by { InOrder(old(next), old(head), before, k); }
      PushFront(b);
    }
  }

  ghost predicate UpTo(order: seq<nat>, n: nat) {
    (forall b :: b in order ==> b < n) && (forall b :: 0 <= b < n ==> b in order)
  }

  lemma OneMore(order: seq<nat>, n: nat)
    requires UpTo(order, n)
    ensures n !in order && UpTo([n] + order, n + 1)
  {
  }

  lemma NoLinks(prev: seq<int>, next: seq<int>)
    ensures Forward(next, -1, []) && Backward(prev, -1, []) && Unique([]) && UpTo([], 0)
  {
  }

  lemma LinksOf(prev: seq<int>, next: seq<int>, head: int, tail: int, s: seq<nat>, k: nat)
    requires Forward(next, head, s) && Backward(prev, tail, s) && |prev| == |next| && k < |s|
    ensures s[k] < |next| && next[s[k]] == After(s, k) && prev[s[k]] == Before(s, k)
    ensures k > 0 ==> s[k - 1] < |next|
    ensures k + 1 < |s| ==> s[k + 1] < |next|
    ensures head == First(s) && tail == Last(s)
  {
  }

  lemma HeadTail(prev: seq<int>, next: seq<int>, head: int, tail: int, s: seq<nat>)
    requires Forward(next, head, s) && Backward(prev, tail, s)
    ensures head == First(s) && tail == Last(s) && (s != [] ==> s[0] < |prev|)
  {
  }

  lemma InOrder(next: seq<int>, head: int, s: seq<nat>, k: nat)
    requires Forward(next, head, s) && k < |s|
    ensures s[k] < |next|
  {
  }

  // ----- the hash chains -----

  class Index {
    var hnext: seq<int>
    var buckets: seq<int>
    ghost var chains: seq<seq<nat>>

    ghost predicate Valid()
      reads this
    {
      && |buckets| == |chains| == BUCKETS
      && (forall h :: 0 <= h < BUCKETS ==> Forward(hnext, buckets[h], chains[h]) && Unique(chains[h]))
      && (forall g, h :: 0 <= g < h < BUCKETS ==> forall x :: x in chains[g] ==> x !in chains[h])
    }

    constructor (n: nat)
      ensures Valid() && |hnext| == n && forall h :: 0 <= h < BUCKETS ==> chains[h] == []
    {
      hnext, buckets := seq(n, _ => -1), seq(BUCKETS, _ => -1);
      chains := seq(BUCKETS, _ => []);
    }

    /** hash_remove: follows the chain until the link that names the buffer. */
    method Remove(b: nat, h: nat)
      requires Valid() && h < BUCKETS && b in chains[h]
      modifies this
      ensures Valid() && |hnext| == |old(hnext)|
      ensures forall g :: 0 <= g < BUCKETS && g != h ==> chains[g] == old(chains)[g]
      ensures forall x :: x in chains[h] <==> x in old(chains)[h] && x != b
    {
      hide Forward, Unique;
      ghost var s := chains[h];
      ghost var k :| 0 <= k < |s| && s[k] == b;
      var before, cur := -1, buckets[h];
      ghost var i := 0;
      Step(hnext, buckets[h], s, 0);
      while cur != b
        invariant 0 <= i <= k && cur == s[i] && before == Before(s, i)
        invariant hnext == old(hnext) && buckets == old(buckets) && chains == old(chains)
        decreases k - i
      {
        Step(hnext, buckets[h], s, i);
        before, cur, i := cur, hnext[cur], i + 1;
      }
      Distinct(s, i, k);
      Step(hnext, buckets[h], s, k);
      if k > 0 { Different(s, k - 1, k); }
      if before < 0 { buckets := buckets[h := hnext[b]]; } else { hnext := hnext[before := hnext[b]]; }
      hnext := hnext[b := -1];
      ForwardCut(old(hnext), old(buckets)[h], s, k, hnext, buckets[h]);
      CutFacts(s, k);
      chains := chains[h := Cut(s, k)];
      forall g | 0 <= g < BUCKETS && g != h ensures Forward(hnext, buckets[g], chains[g]) {
        Apart(old(chains), g, h, s);
        if k > 0 { assert s[k - 1] in s; }
        ForwardFrame(old(hnext), hnext, buckets[g], chains[g]);
      }
    }

    method Insert(b: nat, h: nat)
      requires Valid() && h < BUCKETS && b < |hnext| && forall g :: 0 <= g < BUCKETS ==> b !in chains[g]
      modifies this
      ensures Valid() && |hnext| == |old(hnext)|
      ensures forall g :: 0 <= g < BUCKETS && g != h ==> chains[g] == old(chains)[g]
      ensures forall x :: x in chains[h] <==> x in old(chains)[h] || x == b
    {
      hide Forward;
      ForwardPush(hnext, buckets[h], chains[h], b);
      ghost var next0 := hnext;
      hnext := hnext[b := buckets[h]];
      buckets := buckets[h := b];
      chains := chains[h := [b] + chains[h]];
      forall g | 0 <= g < BUCKETS && g != h ensures Forward(hnext, buckets[g], chains[g]) {
        ForwardFrame(next0, hnext, buckets[g], chains[g]);
      }
    }
  }

  lemma Step(next: seq<int>, head: int, s: seq<nat>, i: nat)
    requires Forward(next, head, s) && i < |s|
    ensures head == s[0] && s[i] < |next| && next[s[i]] == After(s, i)
    ensures i > 0 ==> s[i - 1] < |next|
  {
  }

  lemma Distinct(s: seq<nat>, i: nat, j: nat)
    requires Unique(s) && i < |s| && j < |s| && s[i] == s[j]
    ensures i == j
  {
  }

  lemma Apart(chains: seq<seq<nat>>, g: nat, h: nat, s: seq<nat>)
    requires g < |chains| && h < |chains| && g != h && s == chains[h]
    requires forall g, h :: 0 <= g < h < |chains| ==> forall x :: x in chains[g] ==> x !in chains[h]
    ensures forall x :: x in s ==> x !in chains[g]
  {
  }

  // ----- the cache -----

  /** How the driver answers a request: a negative result is a failure, which
      may leave anything in a sector it was writing. */
  datatype Answer = Answer(result: int, junk: Sector)

  /** The driver gave this answer to some request of a stretch. */
  ghost predicate Answered(driver: nat -> Answer, from: nat, till: nat, r: int) {
    exists n: nat :: from <= n < till && driver(n).result == r
  }

  /** The driver failed no request of a stretch. */
  ghost predicate Smooth(driver: nat -> Answer, from: nat, till: nat) {
    forall n: nat :: from <= n < till ==> driver(n).result >= 0
  }

  lemma AnsweredIn(driver: nat -> Answer, from: nat, n: nat, m: nat, till: nat, r: int)
    requires from <= n && m <= till
    ensures Answered(driver, n, m, r) ==> Answered(driver, from, till, r)
  {
    if Answered(driver, n, m, r) {
      var k: nat :| n <= k < m && driver(k).result == r;
    }
  }

  /** No buffer can be emptied without trouble, and the result says why: all are pinned, or one is dirty whose disk
      cannot be written. */
  ghost predicate Blocked(bufs: seq<Buf>, sealed: set<nat>, r: int) {
    || (r == EBUSY && forall b :: 0 <= b < |bufs| ==> bufs[b].refs > 0)
    || (r == EROFS && exists b :: 0 <= b < |bufs| && Stuck(bufs[b], sealed))
  }

  ghost predicate Stuck(b: Buf, sealed: set<nat>) { b.dev >= 0 && b.dirty && b.dev in sealed }

  /** Some dirty buffer of a disk cannot be written back. */
  ghost predicate SomeStuck(bufs: seq<Buf>, sealed: set<nat>, root: nat) {
    exists b :: 0 <= b < |bufs| && Stuck(bufs[b], sealed) && bufs[b].dev == root
  }

  class BlockCache {
    const lru: Lru
    const index: Index
    const hash: (nat, nat) -> nat
    const driver: nat -> Answer
    const sealed: set<nat>
    var calls: nat
    var bufs: seq<Buf>
    var disks: Disks

    function Bucket(root: nat, lba: nat): nat { hash(root, lba) % BUCKETS }

    ghost predicate InBucket(b: Buf, h: nat) { b.dev >= 0 && Bucket(b.dev, b.lba) == h }

    /** Every buffer is on the recency list; exactly the filled ones are in the
        chain of their bucket. */
    ghost predicate Lists()
      reads this, lru, index
    {
      && lru.Valid() && |lru.next| == |bufs| && (forall b :: 0 <= b < |bufs| ==> b in lru.order)
      && index.Valid() && |index.hnext| == |bufs|
      && (forall h, b :: 0 <= h < BUCKETS && 0 <= b < |bufs| ==> (b in index.chains[h] <==> InBucket(bufs[b], h)))
    }

    ghost predicate Valid()
      reads this, lru, index
    {
      Lists() && Coherent(bufs, disks, -1)
    }

    ghost function Disk(): Disks
      reads this
    {
      Seen(bufs, disks)
    }

    constructor (n: nat, hash: (nat, nat) -> nat, driver: nat -> Answer, sealed: set<nat>, disks: Disks)
      ensures Valid() && Disk() == disks && |bufs| == n
      ensures forall b :: 0 <= b < n ==> bufs[b].refs == 0 && bufs[b].dev < 0
    {
      this.hash, this.driver, this.sealed, this.disks, calls := hash, driver, sealed, disks, 0;
      bufs := seq(n, _ => Buf(-1, 0, 0, false, ZeroSector()));
      lru := new Lru(n);
      index := new Index(n);
      new;
      Empty(bufs, disks);
    }

    /** What excuses a call that fails. */
    ghost predicate Excused(from: nat, r: int)
      reads this
    {
      Answered(driver, from, calls, r) || Blocked(bufs, sealed, r)
    }

    /** lookup: the buffer of a sector, if it is cached. */
    method Lookup(root: nat, lba: nat) returns (b: int)
      requires Lists()
      ensures b < 0 <==> !Cached(bufs, root, lba)
      ensures b >= 0 ==> b < |bufs| && Caches(bufs[b], root, lba)
    {
      hide Forward, Unique;
      var h := Bucket(root, lba);
      b := index.buckets[h];
      ghost var s, i := index.chains[h], 0;
      Enter(index.hnext, b, s);
      while b >= 0
        invariant 0 <= i <= |s| && (if i < |s| then b == s[i] else b < 0)
        invariant forall j :: 0 <= j < i ==> s[j] < |bufs| && !Caches(bufs[s[j]], root, lba)
        decreases |s| - i
      {
        Step(index.hnext, index.buckets[h], s, i);
        if Caches(bufs[b], root, lba) { return; }
        b, i := index.hnext[b], i + 1;
      }
      forall k | 0 <= k < |bufs| ensures !Caches(bufs[k], root, lba) {
        if InBucket(bufs[k], h) { assert k in s; }
      }
    }

    /** write_back: the disk gets the sector, or the attempt fails and may spoil
        what the disk had; nobody reading through the cache can tell. */
    method WriteBack(b: nat) returns (r: int)
      requires Valid() && b < |bufs| && bufs[b].dev >= 0
      modifies this`calls, this`bufs, this`disks
      ensures Valid() && Disk() == old(Disk()) && r <= 0 && old(calls) <= calls
      ensures if r < 0 then Answered(driver, old(calls), calls, r) || (r == EROFS && Stuck(bufs[b], sealed))
              else !Stuck(old(bufs)[b], sealed) && Smooth(driver, old(calls), calls)
      ensures bufs == if r == 0 then old(bufs)[b := old(bufs)[b].(dirty := false)] else old(bufs)
      ensures InRange(old(disks), bufs[b].dev, bufs[b].lba)
      ensures r == 0 ==> disks == Put(old(disks), bufs[b].dev, bufs[b].lba, bufs[b].data)
      ensures Beside(old(disks), disks, bufs[b].dev, bufs[b].lba)
    {
      hide Seen, Look;
      if !bufs[b].dirty {
        PlacedClean(bufs, disks, b);
        assert bufs[b := bufs[b].(dirty := false)] == bufs;
        return 0;
      }
      r := DriverWrite(b);
    }

    method DriverWrite(b: nat) returns (r: int)
      requires Valid() && b < |bufs| && bufs[b].dev >= 0 && bufs[b].dirty
      modifies this`calls, this`bufs, this`disks
      ensures Valid() && Disk() == old(Disk()) && r <= 0 && old(calls) <= calls
      ensures if r < 0 then Answered(driver, old(calls), calls, r) || (r == EROFS && Stuck(bufs[b], sealed))
              else !Stuck(old(bufs)[b], sealed) && Smooth(driver, old(calls), calls)
      ensures bufs == if r == 0 then old(bufs)[b := old(bufs)[b].(dirty := false)] else old(bufs)
      ensures InRange(old(disks), bufs[b].dev, bufs[b].lba)
      ensures r == 0 ==> disks == Put(old(disks), bufs[b].dev, bufs[b].lba, bufs[b].data)
      ensures Beside(old(disks), disks, bufs[b].dev, bufs[b].lba)
    {
      hide Seen, Look, Coherent, Forward, Backward;
      PlacedClean(bufs, disks, b);
      if bufs[b].dev in sealed { return EROFS; }
      var answer := driver(calls);
      calls := calls + 1;
      assert driver(calls - 1) == answer;
      r := if answer.result < 0 then answer.result else 0;
      var written := if r < 0 then answer.junk else bufs[b].data;
      DiskWrite(bufs, disks, b, written, r < 0);
      disks := Put(disks, bufs[b].dev, bufs[b].lba, written);
      if r == 0 {
        bufs := bufs[b := bufs[b].(dirty := false)];
      } else {
        assert bufs[b := bufs[b].(dirty := true)] == bufs;
      }
    }

    /** take_victim: the least recently used buffer that nobody has pinned,
        written back if it was dirty and emptied. */
    method TakeVictim() returns (r: int, b: nat)
      requires Valid()
      modifies this`calls, this`bufs, this`disks, index
      ensures Valid() && Disk() == old(Disk()) && r <= 0
      ensures SameShape(old(disks), disks) && old(calls) <= calls && (r < 0 ==> Excused(old(calls), r))
      ensures r == 0 ==> Smooth(driver, old(calls), calls)
      ensures r == EBUSY || (exists k :: 0 <= k < |lru.order| && LeastRecent(old(bufs), lru.order,
                                                                             k) && (r == 0 ==> lru.order[k] == b))
      ensures r < 0 ==> bufs == old(bufs)
      ensures r == 0 ==> b < |bufs| && old(bufs)[b].refs == 0
      ensures r == 0 ==> bufs == old(bufs)[b := old(bufs)[b].(dev := -1, dirty := false)]
    {
      hide Seen, Look, Coherent, Forward, Backward, Unique;
      r, b := EBUSY, 0;
      var cur := lru.tail;
      ghost var i := |lru.order| - 1;
      LastOf(lru.prev, lru.tail, lru.order);
      while cur >= 0
        invariant -1 <= i < |lru.order| && (if i >= 0 then cur == lru.order[i] else cur < 0)
        invariant forall j :: i < j < |lru.order| ==> lru.order[j] < |bufs| && bufs[lru.order[j]].refs > 0
        invariant Valid() && bufs == old(bufs) && disks == old(disks) && calls == old(calls)
        decreases i
      {
        StepBack(lru.prev, lru.tail, lru.order, i);
        if bufs[cur].refs == 0 {
          assert LeastRecent(bufs, lru.order, i);
          r := Reclaim(cur);
          return r, cur;
        }
        cur, i := lru.prev[cur], i - 1;
      }
      forall k | 0 <= k < |bufs| ensures bufs[k].refs > 0 {
        assert k in lru.order;
        var j :| 0 <= j < |lru.order| && lru.order[j] == k;
      }
    }

    method Reclaim(b: nat) returns (r: int)
      requires Valid() && b < |bufs| && bufs[b].refs == 0
      modifies this`calls, this`bufs, this`disks, index
      ensures Valid() && Disk() == old(Disk()) && r <= 0
      ensures SameShape(old(disks), disks) && old(calls) <= calls && (r < 0 ==> Excused(old(calls), r))
      ensures r == 0 ==> Smooth(driver, old(calls), calls)
      ensures bufs == if r < 0 then old(bufs) else old(bufs)[b := old(bufs)[b].(dev := -1, dirty := false)]
    {
      hide Seen, Look, Coherent, Forward, Backward, Unique;
      if bufs[b].dev < 0 {
        PlacedClean(bufs, disks, b);
        assert bufs[b := bufs[b].(dev := -1, dirty := false)] == bufs;
        return 0;
      }
      r := WriteBack(b);
      if r < 0 { return; }
      Evict(bufs, disks, b);
      index.Remove(b, Bucket(bufs[b].dev, bufs[b].lba));
      bufs := bufs[b := bufs[b].(dev := -1)];
    }

    /** get_buf: the buffer of a sector, pinned once more. Without reading, a
        fresh buffer comes zeroed and waits to be filled. */
    method GetBuf(root: nat, lba: nat, read: bool) returns (r: int, b: nat)
      requires Valid() && InRange(disks, root, lba)
      modifies this`calls, this`bufs, this`disks, lru, index
      ensures Lists() && r <= 0 && SameShape(old(disks), disks) && old(calls) <= calls
      ensures r < 0 ==> Excused(old(calls), r)
      ensures r == 0 ==> Smooth(driver, old(calls), calls)
      ensures r < 0 ==> Valid() && Disk() == old(Disk()) && PinsKept(old(bufs), bufs)
      ensures r == 0 ==> b < |bufs| && Caches(bufs[b], root, lba) && Pinned(old(bufs), bufs, b)
      ensures r == 0 ==> Coherent(bufs, disks, if read then -1 else b)
      ensures r == 0 ==> Disk() == (if read then old(Disk()) else Put(old(Disk()), root, lba, bufs[b].data))
    {
      hide Seen, Look, Coherent, Forward, Backward, Unique;
      b := 0;
      var found := Lookup(root, lba);
      if found >= 0 {
        Pin(found);
        return 0, found;
      }
      r, b := TakeVictim();
      if r < 0 { return; }
      assert !Cached(bufs, root, lba) by { StillUncached(old(bufs), b, root, lba); }
      var data := ZeroSector();
      if read {
        var answer := driver(calls);
        calls := calls + 1;
        assert driver(calls - 1) == answer;
        if answer.result < 0 { return answer.result, b; }
        data := disks[root][lba];
      }
      Fill(b, root, lba, data);
      return 0, b;
    }

    method Pin(b: nat)
      requires Valid() && b < |bufs| && bufs[b].dev >= 0
      modifies this`bufs, lru
      ensures Valid() && Disk() == old(Disk()) && bufs == old(bufs)[b := old(bufs)[b].(refs := old(bufs)[b].refs + 1)]
      ensures InRange(disks, bufs[b].dev, bufs[b].lba) && Coherent(bufs, disks, b)
      ensures Disk() == Put(old(Disk()), bufs[b].dev, bufs[b].lba, bufs[b].data)
    {
      hide Seen, Look, Forward, Backward, Unique;
      PlacedClean(bufs, disks, b);
      PutSame(bufs, disks, b);
      Remark(bufs, disks, b, bufs[b].(refs := bufs[b].refs + 1));
      bufs := bufs[b := bufs[b].(refs := bufs[b].refs + 1)];
      ToFront(b);
    }

    method ToFront(b: nat)
      requires Lists() && b < |bufs|
      modifies lru
      ensures Lists()
    {
      hide Forward, Backward;
      ghost var before := lru.order;
      lru.Touch(b);
      ghost var k :| 0 <= k < |before| && before[k] == b && lru.order == [b] + Cut(before, k);
      CutFacts(before, k);
    }

    method Fill(b: nat, root: nat, lba: nat, data: Sector)
      requires Valid() && b < |bufs| && bufs[b].dev < 0 && InRange(disks, root, lba) && !Cached(bufs, root, lba)
      modifies this`bufs, lru, index
      ensures Lists() && bufs == old(bufs)[b := Buf(root, lba, 1, false, data)]
      ensures Coherent(bufs, disks, b) && Disk() == Put(old(Disk()), root, lba, data)
      ensures data == disks[root][lba] ==> Valid() && Disk() == old(Disk())
    {
      hide Seen, Look, Coherent, Forward, Backward, Unique;
      Load(bufs, disks, b, root, lba, data);
      bufs := bufs[b := Buf(root, lba, 1, false, data)];
      index.Insert(b, Bucket(root, lba));
      ToFront(b);
    }

    /** Writing into a pinned buffer and marking it (bdirty). */
    method Modify(b: nat, data: Sector)
      requires Lists() && b < |bufs| && bufs[b].dev >= 0 && Coherent(bufs, disks, b)
      modifies this`bufs
      ensures Valid() && bufs == old(bufs)[b := old(bufs)[b].(data := data, dirty := true)]
      ensures InRange(disks, bufs[b].dev, bufs[b].lba) && Disk() == Put(old(Disk()), bufs[b].dev, bufs[b].lba, data)
    {
      hide Seen, Look, Coherent;
      Rewrite(bufs, disks, b, bufs[b].(data := data, dirty := true));
      bufs := bufs[b := bufs[b].(data := data, dirty := true)];
    }

    /** brelse. */
    method Release(b: nat)
      requires Valid() && b < |bufs| && bufs[b].dev >= 0
      modifies this`bufs
      ensures Valid() && Disk() == old(Disk())
      ensures bufs == old(bufs)[b := old(bufs)[b].(refs := if old(bufs)[b].refs > 0 then old(bufs)[b].refs - 1 else 0)]
    {
      hide Seen, Look, Coherent;
      var refs := if bufs[b].refs > 0 then bufs[b].refs - 1 else 0;
      Remark(bufs, disks, b, bufs[b].(refs := refs));
      bufs := bufs[b := bufs[b].(refs := refs)];
    }

    // ----- sectors through a device -----

    /** blk_read: a successful read returns the view of the range, whatever mix
        of cached and uncached sectors it meets; reading changes no view. */
    method Read(dev: Dev, lba: nat, count: nat) returns (r: int, out: seq<Sector>)
      requires Valid() && Attached(dev, disks)
      modifies this`calls, lru
      ensures Valid() && Disk() == old(Disk()) && r <= 0
      ensures !RangeOk(dev, lba, count) ==> r == EINVAL
      ensures old(calls) <= calls && (r < 0 && RangeOk(dev, lba, count) ==> Answered(driver, old(calls), calls, r))
      ensures r == 0 ==> Smooth(driver, old(calls), calls)
      ensures r == 0 ==> RangeOk(dev, lba, count) && Offset(dev) + lba + count <= |Disk()[DiskOf(dev).id]|
      ensures r == 0 ==> out == Disk()[DiskOf(dev).id][Offset(dev) + lba..Offset(dev) + lba + count]
    {
      hide Seen, Look, Coherent, Forward, Backward, Unique, Nested;
      out := [];
      if !RangeOk(dev, lba, count) { return EINVAL, []; }
      InsideDisk(dev);
      var disk, start := RootOf(dev, lba);
      var root, abs := disk.id, start;
      ghost var row := Disk()[root];
      while abs < start + count
        invariant start <= abs <= start + count && Lists() && out == row[start..abs]
        invariant bufs == old(bufs) && disks == old(disks) && old(calls) <= calls && Smooth(driver, old(calls), calls)
      {
        var some;
        ghost var from := calls;
        r, some := ReadSome(root, abs, start + count - abs);
        if r < 0 {
          AnsweredIn(driver, old(calls), from, calls, calls, r);
          return r, [];
        }
        assert row[start..abs] + row[abs..abs + |some|] == row[start..abs + |some|];
        out, abs := out + some, abs + |some|;
      }
      return 0, out;
    }

    /** One turn of the read loop: a cached sector, or a run of uncached ones in
        a single driver call. */
    method ReadSome(root: nat, abs: nat, left: nat) returns (r: int, out: seq<Sector>)
      requires Valid() && root in disks && left > 0 && abs + left <= |disks[root]|
      modifies this`calls, lru
      ensures Lists() && r <= 0 && old(calls) <= calls && (r < 0 ==> Answered(driver, old(calls), calls, r))
      ensures r == 0 ==> Smooth(driver, old(calls), calls)
      ensures r == 0 ==> 0 < |out| <= left && out == Disk()[root][abs..abs + |out|]
    {
      hide Coherent, Forward, Backward, Unique;
      out := [];
      var cached := Lookup(root, abs);
      if cached >= 0 {
        CachedSector(bufs, disks, cached);
        out := [bufs[cached].data];
        assert out == Disk()[root][abs..abs + 1];
        ToFront(cached);
        return 0, out;
      }
      var step := 1;
      while step < left && step < READ_RUN
        invariant 1 <= step <= left && Lists() && calls == old(calls)
        invariant forall l :: abs <= l < abs + step ==> !Cached(bufs, root, l)
      {
        var other := Lookup(root, abs + step);
        if other >= 0 { break; }
        step := step + 1;
      }
      var answer := driver(calls);
      calls := calls + 1;
      assert driver(calls - 1) == answer;
      if answer.result < 0 { return answer.result, []; }
      out := disks[root][abs..abs + step];
      assert forall l :: abs <= l < abs + step ==> Disk()[root][l] == disks[root][l];
      return 0, out;
    }

    /** blk_write: exactly the range changes; a failure leaves a prefix. */
    method Write(dev: Dev, lba: nat, data: seq<Sector>) returns (r: int, ghost done: nat)
      requires Valid() && Attached(dev, disks)
      modifies this`calls, this`bufs, this`disks, lru, index
      ensures Valid() && r <= 0 && done <= |data| && SameShape(old(disks), disks)
      ensures !RangeOk(dev, lba, |data|) ==> r == EINVAL && done == 0
      ensures r == 0 ==> RangeOk(dev, lba, |data|) && done == |data|
      ensures old(calls) <= calls
      ensures RangeOk(dev, lba, |data|) && (dev.readonly || DiskOf(dev).readonly) ==> r == EROFS && done == 0
      ensures r < 0 ==>
        !RangeOk(dev, lba, |data|) || dev.readonly || DiskOf(dev).readonly || Excused(old(calls), r)
      ensures r == 0 ==> Smooth(driver, old(calls), calls)
      ensures done > 0 ==> RangeOk(dev, lba, |data|) && !dev.readonly && !DiskOf(dev).readonly
      ensures done > 0 ==> Offset(dev) + lba + done <= |old(Disk())[DiskOf(dev).id]|
      ensures done == 0 ==> Disk() == old(Disk())
      ensures done > 0 ==> Disk() == PutAll(old(Disk()), DiskOf(dev).id, Offset(dev) + lba, data[..done])
      ensures SamePins(old(bufs), bufs)
    {
      hide Valid, Disk, Nested, PutAll, SamePins;
      PinsAre(bufs, bufs, 0);
      if !RangeOk(dev, lba, |data|) { return EINVAL, 0; }
      InsideDisk(dev);
      var disk, start := RootOf(dev, lba);
      if dev.readonly || disk.readonly { return EROFS, 0; }
      ShapeOf();
      ghost var v := Disk();
      r, done := WriteRun(disk.id, start, data);
      if done == 0 { PutNone(v, disk.id, start, data[..done]); }
    }

    lemma ShapeOf()
      ensures SameShape(disks, Disk())
    {
    }

    lemma ExcusedLater(from: nat, n: nat, r: int)
      requires from <= n && Excused(n, r)
      ensures Excused(from, r)
    {
      hide Blocked;
      AnsweredIn(driver, from, n, calls, calls, r);
    }

    method WriteRun(root: nat, start: nat, data: seq<Sector>) returns (r: int, ghost done: nat)
      requires Valid() && root in disks && start + |data| <= |disks[root]|
      modifies this`calls, this`bufs, this`disks, lru, index
      ensures Valid() && r <= 0 && done <= |data| && SameShape(old(disks), disks) && (r == 0 ==> done == |data|)
      ensures SameShape(old(disks), old(Disk())) && old(calls) <= calls && (r < 0 ==> Excused(old(calls), r))
      ensures r == 0 ==> Smooth(driver, old(calls), calls)
      ensures Disk() == PutAll(old(Disk()), root, start, data[..done]) && SamePins(old(bufs), bufs)
    {
      hide Valid, Disk, Put, SamePins;
      ShapeOf();
      ghost var v := Disk();
      PinsAre(bufs, bufs, 0);
      for i := 0 to |data|
        invariant old(calls) <= calls && Smooth(driver, old(calls), calls)
        invariant Valid() && SameShape(old(disks), disks)
        invariant Disk() == PutAll(v, root, start, data[..i]) && SamePins(old(bufs), bufs)
      {
        ghost var mid, from := bufs, calls;
        r := WriteSector(root, start + i, data[i]);
        PinsThen(old(bufs), mid, bufs);
        if r < 0 {
          ExcusedLater(old(calls), from, r);
          return r, i;
        }
        assert data[..i + 1][..i] == data[..i];
      }
      return 0, |data|;
    }

    method WriteSector(root: nat, abs: nat, data: Sector) returns (r: int)
      requires Valid() && InRange(disks, root, abs)
      modifies this`calls, this`bufs, this`disks, lru, index
      ensures Valid() && r <= 0 && SameShape(old(disks), disks) && old(calls) <= calls
      ensures r < 0 ==> Excused(old(calls), r)
      ensures r == 0 ==> Smooth(driver, old(calls), calls)
      ensures Disk() == if r < 0 then old(Disk()) else Put(old(Disk()), root, abs, data)
      ensures SamePins(old(bufs), bufs)
    {
      hide Seen, Look, Coherent, Forward, Backward, Unique, SamePins, OnePin, Pinned, PinsKept;
      var b;
      r, b := GetBuf(root, abs, false);
      PinsAre(old(bufs), bufs, b);
      if r < 0 { return; }
      OwnPin(old(bufs), bufs, b);
      ghost var filled, mid := bufs[b].data, bufs;
      Modify(b, data);
      PutTwice(old(Disk()), root, abs, filled, data);
      Release(b);
      PinBack(old(bufs), mid, b, data, true);
      assert bufs == mid[b := mid[b].(refs := mid[b].refs - 1, data := data, dirty := true)];
    }

    /** blk_flush: the view does not move; after a success the disk is the view. */
    method Flush(dev: Dev) returns (r: int)
      requires Valid() && Attached(dev, disks)
      modifies this`calls, this`bufs, this`disks
      ensures Valid() && Disk() == old(Disk()) && SameShape(old(disks), disks)
      ensures r >= 0 ==> disks[DiskOf(dev).id] == Disk()[DiskOf(dev).id]
      ensures old(calls) <= calls
      ensures r < 0 ==>
        Answered(driver, old(calls), calls, r) || (r == EROFS && SomeStuck(bufs, sealed, DiskOf(dev).id))
      ensures r >= 0 ==> Smooth(driver, old(calls), calls) && !SomeStuck(old(bufs), sealed, DiskOf(dev).id)
      ensures SamePins(old(bufs), bufs)
    {
      hide Seen, Look, Coherent, Forward, Backward, Unique;
      var disk, unused := RootOf(dev, 0);
      var firstError := 0;
      for i := 0 to |bufs|
        invariant Valid() && Disk() == old(Disk()) && SameShape(old(disks), disks) && |bufs| == |old(bufs)|
        invariant firstError <= 0
        invariant firstError == 0 ==> forall j :: 0 <= j < i && bufs[j].dev == disk.id ==> !bufs[j].dirty
        invariant SamePins(old(bufs), bufs) && old(calls) <= calls
        invariant firstError < 0 ==>
          || Answered(driver, old(calls), calls, firstError)
          || (firstError == EROFS && exists j :: 0 <= j < i && Stuck(bufs[j], sealed) && bufs[j].dev == disk.id)
        invariant firstError == 0 ==> Smooth(driver, old(calls), calls)
        invariant firstError == 0 ==>
          forall j :: 0 <= j < i && old(bufs)[j].dev == disk.id ==> !Stuck(old(bufs)[j], sealed)
        invariant forall j :: i <= j < |bufs| ==> bufs[j] == old(bufs)[j]
      {
        if bufs[i].dev == disk.id && bufs[i].dirty {
          ghost var from := calls;
          var result := WriteBack(i);
          AnsweredIn(driver, old(calls), from, calls, calls, result);
          AnsweredIn(driver, old(calls), old(calls), from, calls, firstError);
          if result < 0 && firstError == 0 { firstError := result; }
        }
      }
      if firstError == 0 {
        AllClean(bufs, disks, disk.id);
        firstError := driver(calls).result;
        calls := calls + 1;
        assert driver(calls - 1).result == firstError;
      }
      return firstError;
    }

    // ----- pinned buffers and bytes through a device -----

    /** bread and bnew: pin the buffer of a sector, with its content or zeroed
        and marked dirty. */
    method Acquire(dev: Dev, lba: nat, read: bool) returns (r: int, b: nat)
      requires Valid() && Attached(dev, disks)
      modifies this`calls, this`bufs, this`disks, lru, index
      ensures Valid() && r <= 0 && SameShape(old(disks), disks) && SameShape(old(disks), old(Disk()))
      ensures !RangeOk(dev, lba, 1) ==> r == EINVAL
      ensures old(calls) <= calls
      ensures r < 0 ==>
        !RangeOk(dev, lba, 1) || (!read && (dev.readonly || DiskOf(dev).readonly)) || Excused(old(calls), r)
      ensures r == 0 ==> Smooth(driver, old(calls), calls)
      ensures RangeOk(dev, lba, 1) && !read && (dev.readonly || DiskOf(dev).readonly) ==> r == EROFS
      ensures r < 0 ==> Disk() == old(Disk()) && PinsKept(old(bufs), bufs)
      ensures r == 0 ==> InRange(disks, DiskOf(dev).id, Offset(dev) + lba)
      ensures r == 0 ==>
        && b < |bufs| == |old(bufs)| && Caches(bufs[b], DiskOf(dev).id, Offset(dev) + lba)
        && bufs[b].refs == old(bufs)[b].refs + 1
      ensures r == 0 && read ==> Disk() == old(Disk()) && Pinned(old(bufs), bufs, b)
      ensures r == 0 ==>
        OnePin(old(bufs), bufs, b) && forall i :: 0 <= i < |bufs| && i != b && old(bufs)[i].refs > 0 ==>
          bufs[i] == old(bufs)[i]
      ensures r == 0 && !read ==> bufs[b].data == ZeroSector() && bufs[b].dirty
      ensures r == 0 && !read ==>
        !dev.readonly && Disk() == Put(old(Disk()), DiskOf(dev).id, Offset(dev) + lba, ZeroSector())
    {
      hide Seen, Look, Coherent, Lists, Nested;
      b := 0;
      ShapeOf();
      if !RangeOk(dev, lba, 1) { return EINVAL, 0; }
      InsideDisk(dev);
      var disk, abs := RootOf(dev, lba);
      if !read && (dev.readonly || disk.readonly) { return EROFS, 0; }
      r, b := GetBuf(disk.id, abs, read);
      PinsAre(old(bufs), bufs, b);
      if r < 0 || read { return; }
      ghost var filled := bufs[b].data;
      Modify(b, ZeroSector());
      PutTwice(old(Disk()), disk.id, abs, filled, ZeroSector());
    }

    /** blk_read_bytes. */
    method ReadBytes(dev: Dev, offset: nat, len: nat) returns (r: int, out: seq<bv8>)
      requires Valid() && Attached(dev, disks)
      modifies this`calls, this`bufs, this`disks, lru, index
      ensures Valid() && Disk() == old(Disk()) && r <= 0 && SameShape(old(disks), disks)
      ensures offset + len > dev.sectors * SECTOR_SIZE ==> r == EINVAL
      ensures old(calls) <= calls && (r < 0 ==> offset + len > dev.sectors * SECTOR_SIZE || Excused(old(calls), r))
      ensures r == 0 ==> Smooth(driver, old(calls), calls)
      ensures r == 0 ==> |out| == len && Spells(Disk(), DiskOf(dev).id, Base(dev) + offset, out)
      ensures SamePins(old(bufs), bufs)
    {
      hide Valid, Disk, Attached, Spells, SamePins;
      out := [];
      PinsAre(bufs, bufs, 0);
      if offset + len > dev.sectors * SECTOR_SIZE { return EINVAL, []; }
      SpellsNil(Disk(), DiskOf(dev).id, Base(dev) + offset);
      while |out| < len
        invariant old(calls) <= calls && Smooth(driver, old(calls), calls)
        invariant Valid() && |out| <= len && Disk() == old(Disk())
        invariant SameShape(old(disks), disks) && SamePins(old(bufs), bufs)
        invariant Spells(Disk(), DiskOf(dev).id, Base(dev) + offset, out)
      {
        var bytes;
        StillAttached(dev, old(disks), disks);
        ghost var mid, from := bufs, calls;
        r, bytes := ReadPiece(dev, offset + |out|, len - |out|);
        PinsThen(old(bufs), mid, bufs);
        if r < 0 {
          ExcusedLater(old(calls), from, r);
          return r, [];
        }
        SpellsMore(Disk(), DiskOf(dev).id, Base(dev) + offset, out, bytes);
        out := out + bytes;
      }
      return 0, out;
    }

    method ReadPiece(dev: Dev, offset: nat, want: nat) returns (r: int, bytes: seq<bv8>)
      requires Valid() && Attached(dev, disks) && want > 0 && offset < dev.sectors * SECTOR_SIZE
      modifies this`calls, this`bufs, this`disks, lru, index
      ensures Valid() && Disk() == old(Disk()) && r <= 0 && SameShape(old(disks), disks)
      ensures old(calls) <= calls && (r < 0 ==> Excused(old(calls), r))
      ensures r == 0 ==> Smooth(driver, old(calls), calls)
      ensures r == 0 ==> 0 < |bytes| <= want && Spells(Disk(), DiskOf(dev).id, Base(dev) + offset, bytes)
      ensures SamePins(old(bufs), bufs)
    {
      hide Seen, Look, Coherent, Lists, Attached, Spells, SamePins, OnePin, PinsKept;
      bytes := [];
      var b;
      r, b := Acquire(dev, offset / SECTOR_SIZE, true);
      PinsAre(old(bufs), bufs, b);
      if r < 0 { return; }
      OwnPin(old(bufs), bufs, b);
      PinBack(old(bufs), bufs, b, bufs[b].data, bufs[b].dirty);
      var within := offset % SECTOR_SIZE;
      var chunk := SECTOR_SIZE - within;
      if chunk > want { chunk := want; }
      bytes := bufs[b].data[within..within + chunk];
      CachedSector(bufs, disks, b);
      PieceSpells(Disk(), dev, offset, chunk);
      Release(b);
      return 0, bytes;
    }

    /** blk_write_bytes: exactly the byte range changes, and a failure leaves a
        prefix of it written. */
    method WriteBytes(dev: Dev, offset: nat, data: seq<bv8>) returns (r: int, ghost done: nat)
      requires Valid() && Attached(dev, disks)
      modifies this`calls, this`bufs, this`disks, lru, index
      ensures Valid() && r <= 0 && SameShape(old(disks), disks) && done <= |data| && (r == 0 ==> done == |data|)
      ensures offset + |data| > dev.sectors * SECTOR_SIZE ==> r == EINVAL && done == 0
      ensures done > 0 ==> !dev.readonly && !DiskOf(dev).readonly
      ensures old(calls) <= calls
      ensures r < 0 ==>
        offset + |data| > dev.sectors * SECTOR_SIZE || dev.readonly || DiskOf(dev).readonly || Excused(old(calls), r)
      ensures r == 0 ==> Smooth(driver, old(calls), calls)
      ensures offset + |data| <= dev.sectors * SECTOR_SIZE && (dev.readonly || DiskOf(dev).readonly) ==>
        r == EROFS && done == 0
      ensures Wrote(old(Disk()), Disk(), DiskOf(dev).id, Base(dev) + offset, data[..done])
      ensures SamePins(old(bufs), bufs)
    {
      hide Valid, Disk, Attached, Wrote, SamePins;
      PinsAre(bufs, bufs, 0);
      WroteNothing(Disk(), DiskOf(dev).id, Base(dev) + offset);
      if offset + |data| > dev.sectors * SECTOR_SIZE { return EINVAL, 0; }
      var disk, abs := RootOf(dev, 0);
      if dev.readonly || disk.readonly { return EROFS, 0; }
      var i := 0;
      while i < |data|
        invariant old(calls) <= calls && Smooth(driver, old(calls), calls)
        invariant 0 <= i <= |data| && Valid() && SameShape(old(disks), disks)
        invariant SamePins(old(bufs), bufs)
        invariant Wrote(old(Disk()), Disk(), disk.id, Base(dev) + offset, data[..i])
      {
        var chunk := SECTOR_SIZE - (offset + i) % SECTOR_SIZE;
        if chunk > |data| - i { chunk := |data| - i; }
        ghost var mid, held, from := Disk(), bufs, calls;
        StillAttached(dev, old(disks), disks);
        r := WritePiece(dev, offset + i, data[i..i + chunk]);
        PinsThen(old(bufs), held, bufs);
        if r < 0 {
          ExcusedLater(old(calls), from, r);
          return r, i;
        }
        WroteMore(old(Disk()), mid, Disk(), disk.id, Base(dev) + offset, data[..i], data[i..i + chunk]);
        assert data[..i] + data[i..i + chunk] == data[..i + chunk];
        i := i + chunk;
      }
      assert data[..i] == data;
      return 0, i;
    }

    method WritePiece(dev: Dev, offset: nat, bytes: seq<bv8>) returns (r: int)
      requires Valid() && Attached(dev, disks) && 0 < |bytes| <= SECTOR_SIZE - offset % SECTOR_SIZE
      requires offset < dev.sectors * SECTOR_SIZE
      modifies this`calls, this`bufs, this`disks, lru, index
      ensures Valid() && r <= 0 && SameShape(old(disks), disks)
      ensures r < 0 ==> Disk() == old(Disk())
      ensures old(calls) <= calls && (r < 0 ==> dev.readonly || DiskOf(dev).readonly || Excused(old(calls), r))
      ensures r == 0 ==> Smooth(driver, old(calls), calls)
      ensures r == 0 ==> Wrote(old(Disk()), Disk(), DiskOf(dev).id, Base(dev) + offset, bytes)
      ensures SamePins(old(bufs), bufs)
    {
      hide Seen, Look, Coherent, Lists, Attached, Wrote, SamePins, OnePin, PinsKept;
      var b;
      r, b := Acquire(dev, offset / SECTOR_SIZE, |bytes| != SECTOR_SIZE);
      PinsAre(old(bufs), bufs, b);
      if r < 0 { return; }
      OwnPin(old(bufs), bufs, b);
      ghost var mid := bufs;
      ghost var v, root, lba := old(Disk()), DiskOf(dev).id, Offset(dev) + offset / SECTOR_SIZE;
      ghost var before := bufs[b].data;
      var now := Patch(bufs[b].data, offset % SECTOR_SIZE, bytes);
      CachedSector(bufs, disks, b);
      Pending(bufs, disks, b);
      Modify(b, now);
      if |bytes| == SECTOR_SIZE { PutTwice(v, root, lba, ZeroSector(), now); }
      PieceWrote(v, dev, offset, bytes, before);
      Release(b);
      PinBack(old(bufs), mid, b, now, true);
      assert bufs == mid[b := mid[b].(refs := mid[b].refs - 1, data := now, dirty := true)];
    }
  }

  ghost predicate Attached(dev: Dev, disks: Disks) {
    Nested(dev) && DiskOf(dev).id in disks && |disks[DiskOf(dev).id]| == DiskOf(dev).sectors
  }

  lemma StillAttached(dev: Dev, v: Disks, w: Disks)
    requires Attached(dev, v) && SameShape(v, w)
    ensures Attached(dev, w)
  {
  }

  /** Where the first byte of a device lies on its disk. */
  ghost function Base(dev: Dev): nat { Offset(dev) * SECTOR_SIZE }

  lemma Shift(dev: Dev, offset: nat)
    ensures (Base(dev) + offset) / SECTOR_SIZE == Offset(dev) + offset / SECTOR_SIZE
    ensures (Base(dev) + offset) % SECTOR_SIZE == offset % SECTOR_SIZE
  {
  }

  /** The disk holds these bytes from that offset on. */
  ghost predicate Spells(v: Disks, root: nat, offset: nat, bytes: seq<bv8>) {
    forall i :: 0 <= i < |bytes| ==> Shows(v, root, offset + i, bytes[i])
  }

  ghost predicate Shows(v: Disks, root: nat, offset: nat, value: bv8) {
    InRange(v, root, offset / SECTOR_SIZE) && ByteAt(v, root, offset) == value
  }

  lemma SpellsNil(v: Disks, root: nat, offset: nat)
    ensures Spells(v, root, offset, [])
  {
  }

  lemma SpellsMore(v: Disks, root: nat, offset: nat, x: seq<bv8>, y: seq<bv8>)
    requires Spells(v, root, offset, x) && Spells(v, root, offset + |x|, y)
    ensures Spells(v, root, offset, x + y)
  {
    hide Shows;
    forall i | 0 <= i < |x + y|
      ensures Shows(v, root, offset + i, (x + y)[i])
    {
      if i >= |x| {
        assert Shows(v, root, offset + |x| + (i - |x|), y[i - |x|]);
        assert offset + |x| + (i - |x|) == offset + i;
      }
    }
  }

  lemma PieceSpells(v: Disks, dev: Dev, offset: nat, chunk: nat)
    requires InRange(v, DiskOf(dev).id, Offset(dev) + offset / SECTOR_SIZE)
    requires offset % SECTOR_SIZE + chunk <= SECTOR_SIZE
    ensures Spells(v, DiskOf(dev).id, Base(dev) + offset,
                   v[DiskOf(dev).id][Offset(dev) + offset / SECTOR_SIZE]
                    [offset % SECTOR_SIZE..offset % SECTOR_SIZE + chunk])
  {
    Shift(dev, offset);
    var row := v[DiskOf(dev).id][Offset(dev) + offset / SECTOR_SIZE];
    var bytes := row[offset % SECTOR_SIZE..offset % SECTOR_SIZE + chunk];
    forall i | 0 <= i < |bytes|
      ensures Shows(v, DiskOf(dev).id, Base(dev) + offset + i, bytes[i])
    {
      Within(Base(dev) + offset, i);
    }
  }

  lemma Within(offset: nat, i: nat)
    requires offset % SECTOR_SIZE + i < SECTOR_SIZE
    ensures (offset + i) / SECTOR_SIZE == offset / SECTOR_SIZE && (offset + i) % SECTOR_SIZE == offset % SECTOR_SIZE + i
  {
  }

  lemma PieceWrote(v: Disks, dev: Dev, offset: nat, bytes: seq<bv8>, before: Sector)
    requires InRange(v, DiskOf(dev).id, Offset(dev) + offset / SECTOR_SIZE)
    requires offset % SECTOR_SIZE + |bytes| <= SECTOR_SIZE
    requires |bytes| == SECTOR_SIZE || before == v[DiskOf(dev).id][Offset(dev) + offset / SECTOR_SIZE]
    ensures Wrote(v, Put(v, DiskOf(dev).id, Offset(dev) + offset / SECTOR_SIZE,
                         Patch(before, offset % SECTOR_SIZE, bytes)),
                  DiskOf(dev).id, Base(dev) + offset, bytes)
  {
    hide Wrote, Base, Put;
    Shift(dev, offset);
    PatchWrote(v, DiskOf(dev).id, Base(dev) + offset, bytes);
    if |bytes| == SECTOR_SIZE {
      PatchAll(before, bytes);
      PatchAll(v[DiskOf(dev).id][Offset(dev) + offset / SECTOR_SIZE], bytes);
    }
  }

  lemma PatchAll(before: Sector, bytes: seq<bv8>)
    requires |bytes| == SECTOR_SIZE
    ensures Patch(before, 0, bytes) == bytes
  {
  }

  lemma Pending(bufs: seq<Buf>, disks: Disks, b: nat)
    requires Coherent(bufs, disks, -1)
    ensures Coherent(bufs, disks, b)
  {
  }

  lemma PutNone(v: Disks, root: nat, lba: nat, data: seq<Sector>)
    requires root in v && lba + |data| <= |v[root]| && data == []
    ensures PutAll(v, root, lba, data) == v
  {
  }

  lemma PutTwice(v: Disks, root: nat, lba: nat, first: Sector, data: Sector)
    requires InRange(v, root, lba)
    ensures Put(Put(v, root, lba, first), root, lba, data) == Put(v, root, lba, data)
  {
    assert SetAt(SetAt(v[root], lba, first), lba, data) == SetAt(v[root], lba, data);
  }

  lemma CachedSector(bufs: seq<Buf>, disks: Disks, b: nat)
    requires Coherent(bufs, disks, -1) && b < |bufs| && bufs[b].dev >= 0
    ensures InRange(disks, bufs[b].dev, bufs[b].lba) && Seen(bufs, disks)[bufs[b].dev][bufs[b].lba] == bufs[b].data
  {
    assert Placed(bufs[b], disks);
    LookAt(bufs, disks, b);
  }

  /** One more pin on `b`; pinned buffers keep their sector and content. */
  ghost predicate Pinned(before: seq<Buf>, bufs: seq<Buf>, b: nat) {
    && |bufs| == |before| && b < |bufs| && bufs[b].refs == before[b].refs + 1
    && (forall i :: 0 <= i < |bufs| && i != b ==> bufs[i].refs == before[i].refs)
    && (forall i :: 0 <= i < |bufs| && i != b && before[i].refs > 0 ==> bufs[i] == before[i])
    && (before[b].refs > 0 ==> bufs[b] == before[b].(refs := bufs[b].refs))
  }

  /** The same pins, and every pinned buffer still stands for its sector. */
  ghost predicate SamePins(before: seq<Buf>, bufs: seq<Buf>) {
    |bufs| == |before| && forall i :: 0 <= i < |bufs| ==> PinSame(before[i], bufs[i])
  }

  ghost predicate PinSame(a: Buf, b: Buf) {
    b.refs == a.refs && (a.refs > 0 ==> b.dev == a.dev && b.lba == a.lba)
  }

  /** One pin more on one buffer. */
  ghost predicate OnePin(before: seq<Buf>, bufs: seq<Buf>, b: nat) {
    && |bufs| == |before| && b < |bufs| && bufs[b].refs == before[b].refs + 1
    && (before[b].refs > 0 ==> bufs[b].dev == before[b].dev && bufs[b].lba == before[b].lba)
    && forall i :: 0 <= i < |bufs| && i != b ==> PinSame(before[i], bufs[i])
  }

  lemma PinsAre(before: seq<Buf>, bufs: seq<Buf>, b: nat)
    ensures PinsKept(before, bufs) ==> SamePins(before, bufs)
    ensures Pinned(before, bufs, b) ==> OnePin(before, bufs, b)
    ensures SamePins(bufs, bufs)
  {
  }

  lemma OwnPin(before: seq<Buf>, bufs: seq<Buf>, b: nat)
    requires OnePin(before, bufs, b)
    ensures b < |bufs| && bufs[b].refs > 0
  {
  }

  /** A pin taken and given back, whatever was written in between. */
  lemma PinBack(before: seq<Buf>, mid: seq<Buf>, b: nat, data: Sector, dirty: bool)
    requires OnePin(before, mid, b)
    ensures SamePins(before, mid[b := mid[b].(refs := mid[b].refs - 1)])
    ensures SamePins(before, mid[b := mid[b].(refs := mid[b].refs - 1, data := data, dirty := dirty)])
  {
  }

  lemma PinsThen(a: seq<Buf>, b: seq<Buf>, c: seq<Buf>)
    requires SamePins(a, b) && SamePins(b, c)
    ensures SamePins(a, c)
  {
    forall i | 0 <= i < |c| ensures PinSame(a[i], c[i]) { assert PinSame(a[i], b[i]) && PinSame(b[i], c[i]); }
  }

  ghost predicate PinsKept(before: seq<Buf>, bufs: seq<Buf>) {
    && |bufs| == |before|
    && (forall i :: 0 <= i < |bufs| ==> bufs[i].refs == before[i].refs && (before[i].refs > 0 ==> bufs[i] == before[i]))
  }

  lemma StillUncached(bufs: seq<Buf>, b: nat, root: nat, lba: nat)
    requires b < |bufs| && !Cached(bufs, root, lba)
    ensures !Cached(bufs[b := bufs[b].(dev := -1, dirty := false)], root, lba)
  {
    assert forall i :: 0 <= i < |bufs| ==> !Caches(bufs[i], root, lba);
  }

  /** The k-th buffer of the list is free and every later one is pinned. */
  ghost predicate LeastRecent(bufs: seq<Buf>, order: seq<nat>, k: nat) {
    && k < |order| && order[k] < |bufs| && bufs[order[k]].refs == 0
    && forall j :: k < j < |order| ==> order[j] < |bufs| && bufs[order[j]].refs > 0
  }

  lemma Enter(next: seq<int>, head: int, s: seq<nat>)
    requires Forward(next, head, s)
    ensures if s == [] then head < 0 else head == s[0]
  {
  }

  lemma LastOf(prev: seq<int>, tail: int, s: seq<nat>)
    requires Backward(prev, tail, s)
    ensures if s == [] then tail < 0 else tail == s[|s| - 1]
  {
  }

  lemma StepBack(prev: seq<int>, tail: int, s: seq<nat>, i: nat)
    requires Backward(prev, tail, s) && i < |s|
    ensures s[i] < |prev| && prev[s[i]] == Before(s, i)
  {
  }

  lemma PlacedClean(bufs: seq<Buf>, disks: Disks, b: nat)
    requires Coherent(bufs, disks, -1) && b < |bufs|
    ensures bufs[b].dev < 0 ==> bufs[b].dev == -1 && !bufs[b].dirty && bufs[b].refs == 0
    ensures bufs[b].dev >= 0 ==> InRange(disks, bufs[b].dev, bufs[b].lba)
    ensures bufs[b].dev >= 0 && !bufs[b].dirty ==> Put(disks, bufs[b].dev, bufs[b].lba, bufs[b].data) == disks
  {
    assert Placed(bufs[b], disks) && Clean(bufs[b], disks);
    if bufs[b].dev >= 0 && !bufs[b].dirty {
      assert SetAt(disks[bufs[b].dev], bufs[b].lba, bufs[b].data) == disks[bufs[b].dev];
    }
  }

  lemma Empty(bufs: seq<Buf>, disks: Disks)
    requires forall b :: 0 <= b < |bufs| ==> bufs[b].dev == -1 && !bufs[b].dirty && bufs[b].refs == 0
    ensures Coherent(bufs, disks, -1) && Seen(bufs, disks) == disks
  {
    forall r, l | r in disks && 0 <= l < |disks[r]| ensures Look(bufs, disks, r, l) == disks[r][l] {}
    assert forall r :: r in disks ==> Seen(bufs, disks)[r] == disks[r];
  }
}
