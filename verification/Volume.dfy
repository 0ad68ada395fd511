/** A FAT32 volume of src/fs/fat32.c: cluster allocation, files read and written
    through a cached chain position, growing, shrinking. */
module Volume {
  import opened Fat
  import opened Bytes

  const UNKNOWN := 0xFFFF_FFFF
  const MAX_SIZE := 0xFFFF_FFFF
  const MAX_COUNT := 0x7FFF_FFFF
  const PER_SECTOR := 128
  const SECTOR := 512
  const EIO := -5
  const EACCES := -13
  const EISDIR := -21
  const EFBIG := -27
  const ENOSPC := -28
  const EROFS := -30

  /** An open file: where its chain starts, its size, and the cached place in the chain. */
  datatype Node = Node(first: nat, size: nat, at: nat, cluster: nat, dirty: bool, isDir: bool, readOnly: bool)

  /** What the directory on the disk says about the file. */
  datatype Entry = Entry(first: nat, size: nat)

  /** The cached place is a place of the chain. */
  ghost predicate Placed(n: Node, s: seq<nat>) {
    n.first == FirstOf(s) && (n.cluster != 0 ==> n.at < |s| && s[n.at] == n.cluster)
  }

  /** The chain is long enough for the size, and the entry on the disk leads to
      this chain or to none; unless the file is marked, the entry is up to date. */
  ghost predicate Kept(n: Node, e: Entry, s: seq<nat>, csize: nat) {
    && Placed(n, s) && n.size <= Start(|s|, csize) && n.size <= MAX_SIZE
    && (e.first == 0 || (s != [] && e.first == s[0]))
    && (!n.dirty ==> e == Entry(n.first, n.size))
  }

  /** A mark stays, and a file whose first cluster or size changed has one. */
  ghost predicate Marked(n: Node, m: Node) {
    (n.dirty ==> m.dirty) && (m.first != n.first || m.size != n.size ==> m.dirty)
  }

  /** The free count is unknown or right. */
  ghost predicate Counted(fat: Table, freeCount: nat) {
    freeCount == UNKNOWN || freeCount == Zeros(fat, |fat|)
  }

  /** No cluster is free. */
  ghost predicate Full(fat: Table) { forall c :: InVolume(fat, c) ==> fat[c] != 0 }

  /** Clusters only move between the free ones and the chain. */
  ghost predicate Spent(a: Table, s: seq<nat>, b: Table, t: seq<nat>)
    requires |a| >= 2 && |b| >= 2
  {
    Zeros(b, |b|) + |t| == Zeros(a, |a|) + |s|
  }

  lemma NothingSpent(a: Table, s: seq<nat>)
    requires |a| >= 2
    ensures Spent(a, s, a, s)
  {
  }

  lemma SpentThen(a: Table, s: seq<nat>, b: Table, t: seq<nat>, c: Table, u: seq<nat>)
    requires |a| >= 2 && |b| >= 2 && |c| >= 2
    ensures Spent(a, s, b, t) && Spent(b, t, c, u) ==> Spent(a, s, c, u)
  {
  }

  /** A write of n bytes at an offset that got done of them: it stopped short only where the chain ended, the chain
      grew no further than the bytes asked for, and no cluster was lost. */
  ghost predicate Accounted(a: Table, s: seq<nat>, b: Table, t: seq<nat>, csize: nat, short: bool, broke: bool,
                            offset: nat,
                            done: nat, n: nat)
    requires |a| >= 2 && |b| >= 2
  {
    && (!broke ==> Spent(a, s, b, t))
    && (short && !broke ==> Start(|t|, csize) <= offset + done && (n > 0 ==> done < n))
    && (|t| > |s| && n > 0 ==> Start(|t| - 1, csize) < offset + n)
  }

  /** How long a file could get: its own clusters and all the free ones. */
  ghost function Room(fat: Table, s: seq<nat>, csize: nat): nat { Start(|s| + Zeros(fat, |fat|), csize) }

  /** What putting n bytes at an offset inside the file comes to with a block layer that works: all of them if there is
      room, else as many as there is room for. */
  ghost predicate Landed(a: Table, s: seq<nat>, b: Table, t: seq<nat>, csize: nat, r: int, offset: nat, done: nat,
                         n: nat)
    requires |a| >= 2 && |b| >= 2
  {
    && Spent(a, s, b, t) && (|t| > |s| ==> Start(|t| - 1, csize) < offset + n)
    && r == (if offset + n <= Room(a, s, csize) then 0 else ENOSPC)
    && done == if offset + n <= Room(a, s, csize) then n else Room(a, s, csize) - offset
  }

  lemma PutExact(st: State, now: State, f: nat, r: int, offset: nat, done: nat, n: nat)
    requires Good(st) && Good(now) && f in st.chains && f in now.chains && f in st.nodes && f in now.nodes
    requires st.csize == now.csize
    requires |st.fat| >= 2 && |now.fat| >= 2 && offset <= st.nodes[f].size && 0 < n && done <= n
    requires Accounted(st.fat, st.chains[f], now.fat, now.chains[f], st.csize, r < 0, false, offset, done, n)
    requires r == 0 ==> done == n
    requires r == 0 || (r == ENOSPC && Full(now.fat))
    requires now.nodes[f].size == if offset + done > st.nodes[f].size then offset + done else st.nodes[f].size
    ensures Landed(st.fat, st.chains[f], now.fat, now.chains[f], st.csize, r, offset, done, n)
  {
    hide Start, Zeros, AllChains, AllSized;
    ZerosBound(now.fat, |now.fat|);
    StartMono(|now.chains[f]|, |st.chains[f]| + Zeros(st.fat, |st.fat|), st.csize);
    assert Kept(st.nodes[f], st.entries[f], st.chains[f], st.csize);
    assert Kept(now.nodes[f], now.entries[f], now.chains[f], st.csize);
  }

  /** What a write of n bytes comes to with a block layer that works. */
  ghost predicate Fulfilled(a: Table, s: seq<nat>, b: Table, t: seq<nat>, csize: nat, size: nat, offset: nat, n: nat,
                            r: int,
                            hole: nat, reach: nat)
    requires |a| >= 2 && |b| >= 2
  {
    var room := Room(a, s, csize);
    && Spent(a, s, b, t) && (|t| > |s| ==> Start(|t| - 1, csize) < offset + n)
    && r == (if offset + n <= room then n else if offset < room then room - offset else ENOSPC)
    && hole == (if offset <= size then 0 else if offset <= room then offset - size else room - size)
    && reach == if r < 0 then 0 else r
  }

  lemma FilledFirst(a: Table, s: seq<nat>, b: Table, t: seq<nat>, c: Table, u: seq<nat>, csize: nat, size: nat,
                    offset: nat, n: nat,
                    hole: nat, r: int, done: nat)
    requires |a| >= 2 && |b| >= 2 && |c| >= 2 && n > 0 && done <= n
    requires if offset <= size then b == a && t == s && hole == 0 else Landed(a, s, b, t, csize, 0, size, hole,
                                                                              offset - size)
    requires Landed(b, t, c, u, csize, r, offset, done, n)
    ensures Fulfilled(a, s, c, u, csize, size, offset, n, if done > 0 then done else r, hole, done)
  {
    hide Zeros, Start;
    assert |t| + Zeros(b, |b|) == |s| + Zeros(a, |a|);
    if |s| < |u| < |t| { StartMono(|u| - 1, |t| - 1, csize); }
  }

  lemma NotFilled(a: Table, s: seq<nat>, b: Table, t: seq<nat>, csize: nat, size: nat, offset: nat, n: nat, hole: nat,
                  r: int)
    requires |a| >= 2 && |b| >= 2 && n > 0 && r < 0 && offset > size
    requires Landed(a, s, b, t, csize, r, size, hole, offset - size)
    ensures Fulfilled(a, s, b, t, csize, size, offset, n, r, hole, 0)
  {
    hide Zeros, Start;
  }

  /** Cutting a chain gives back all the rest. */
  lemma TailSpent(fat: Table, s: seq<nat>, keep: nat, cut: Table)
    requires IsChain(fat, s) && Sized(fat) && keep <= |s| && IsChain(cut, s[keep..])
    requires forall i :: 0 <= i < |s[keep..]| ==> InVolume(cut, s[keep..][i])
    requires keep == 0 ==> cut == fat
    requires keep > 0 ==> InVolume(fat, s[keep - 1]) && cut == fat[s[keep - 1] := EOC]
    ensures |fat| >= 2 && Spent(fat, s, Freed(cut, s[keep..], |s| - keep), s[..keep])
  {
    hide Zeros, IsChain, Freed;
    if keep > 0 {
      CutFacts(fat, s, keep);
      ZerosUpdate(fat, |fat|, s[keep - 1], EOC);
    }
    FreedZeros(cut, s[keep..], |s| - keep);
  }

  lemma OneSpent(fat: Table, s: seq<nat>, c: nat, now: Table)
    requires IsChain(fat, s) && Sized(fat) && InVolume(fat, c) && fat[c] == 0
    requires s == [] ==> now == fat[c := EOC]
    requires s != [] ==> LastOf(s) < |fat| && now == fat[c := EOC][LastOf(s) := c]
    ensures |fat| >= 2 && Spent(fat, s, now, s + [c])
  {
    hide Zeros;
    ZerosUpdate(fat, |fat|, c, EOC);
    if s != [] {
      Occupied(fat, s, LastOf(s));
      ZerosUpdate(fat[c := EOC], |fat|, LastOf(s), c);
    }
  }

  lemma Indexed(offset: nat, csize: nat, n: nat)
    requires csize > 0
    ensures n <= IndexOf(offset, csize) ==> Start(n, csize) <= offset
    ensures 0 < n <= IndexOf(offset, csize) + 1 ==> Start(n - 1, csize) <= offset
  {
    hide Start;
    Position(offset, csize);
    if n <= IndexOf(offset, csize) { StartMono(n, offset / csize, csize); }
    if 0 < n <= IndexOf(offset, csize) + 1 { StartMono(n - 1, offset / csize, csize); }
  }

  /** No other file's clusters changed. */
  ghost predicate OnlyChain(a: Chains, b: Chains, f: nat) { f in b && b == a[f := b[f]] }

  lemma SameChains(a: Chains, f: nat)
    requires f in a
    ensures OnlyChain(a, a, f)
  {
  }

  lemma ChainsThen(a: Chains, b: Chains, c: Chains, f: nat)
    requires OnlyChain(a, b, f) && OnlyChain(b, c, f)
    ensures OnlyChain(a, c, f)
  {
  }

  function AtMost(n: nat, limit: nat): nat { if n > limit then limit else n }

  /** How much of a write the limits of a call and of a file leave. */
  function Fitting(count: nat, offset: nat): nat
    requires offset <= MAX_SIZE
  {
    var n := if count > MAX_COUNT then MAX_COUNT else count;
    if n > MAX_SIZE - offset then MAX_SIZE - offset else n
  }

  /** Some request of a stretch failed. */
  ghost predicate Failed(answer: nat -> int, from: nat, till: nat) {
    exists n: nat :: from <= n < till && answer(n) < 0
  }

  /** The cluster of a position, counted along the chain. */
  function IndexOf(offset: nat, csize: nat): nat
    requires csize > 0
  {
    offset / csize
  }

  /** The bytes fill the cluster they start in. */
  predicate Fills(offset: nat, count: nat, csize: nat)
    requires csize > 0
  {
    offset % csize == 0 && count >= csize
  }

  predicate WholeSectors(n: nat) { n % SECTOR == 0 }

  /** How much is written or read at once: whole sectors up to the end of the cluster, or
      the rest of one sector. */
  function ChunkOf(inCluster: nat, rest: nat, csize: nat): (chunk: nat)
    requires rest > 0 && inCluster < csize && csize % SECTOR == 0
    ensures 0 < chunk <= rest && inCluster + chunk <= csize
  {
    var sector, inSector := inCluster / SECTOR, inCluster % SECTOR;
    if inSector == 0 && rest >= SECTOR then
      (if rest / SECTOR > csize / SECTOR - sector then csize / SECTOR - sector else rest / SECTOR) * SECTOR
    else if SECTOR - inSector > rest then rest else SECTOR - inSector
  }

  /** What a failing transfer leaves written: some of its whole sectors, never all, and
      nothing of a part of a sector. */
  function Through(sectors: nat, chunk: nat): (wrote: nat)
    requires chunk > 0
    ensures wrote < chunk && WholeSectors(wrote)
  {
    if chunk % SECTOR != 0 then 0 else if sectors < chunk / SECTOR then sectors * SECTOR else chunk - SECTOR
  }

  class Disk {
    const readonly: bool
    /** Bytes in a cluster. */
    const csize: nat
    var fat: Table
    /** The contents of each cluster. */
    var data: Clusters
    var freeCount: nat
    var nextFree: nat
    /** What the block layer answers. */
    const answer: nat -> int
    /** How many sectors of a failing transfer got through. */
    const through: nat -> nat
    /** Requests of earlier calls, and of the current one. */
    var earlier: nat
    var asked: nat
    /** The open files, their entries on the disk and their chains. */
    var nodes: map<nat, Node>
    var entries: map<nat, Entry>
    ghost var chains: Chains

    ghost predicate Valid()
      reads this
    {
      Base() && Good(Now())
    }

    ghost function Now(): State
      reads this
    {
      State(fat, data, chains, nodes, entries, csize)
    }

    /** What a reader sees: the bytes of every file. */
    ghost function View(): map<nat, seq<bv8>>
      requires Valid()
      reads this
    {
      ViewOf(Now())
    }

    /** The block layer failed during the current call. */
    ghost predicate Broke()
      reads this`asked, this`earlier
    {
      Failed(answer, earlier, earlier + asked)
    }

    ghost predicate Base()
      reads this
    {
      && Sized(fat) && |data| == |fat| && Counted(fat, freeCount)
      && csize > 0 && csize % SECTOR == 0 && AllSized(data, csize)
    }

    constructor (readonly: bool, st: State, freeCount: nat, nextFree: nat, answer: nat -> int, through: nat -> nat)
      requires Good(st) && Counted(st.fat, freeCount) && st.csize % SECTOR == 0
      ensures Valid() && Now() == st && !Broke() && this.readonly == readonly
    {
      this.readonly, csize, fat, data := readonly, st.csize, st.fat, st.data;
      nodes, entries, chains := st.nodes, st.entries, st.chains;
      this.freeCount, this.nextFree, this.answer, this.through := freeCount, nextFree, answer, through;
      earlier, asked := 0, 0;
    }

    /** bread of a sector of the table: it may fail. */
    method Fetch() returns (r: int)
      modifies this`asked
      ensures r <= 0 && asked == old(asked) + 1 && (Broke() <==> old(Broke()) || r < 0)
    {
      r := answer(earlier + asked);
      asked := asked + 1;
      if r > 0 { r := 0; }
      assert r < 0 ==> answer(earlier + asked - 1) < 0;
    }

    /** A call begins. */
    method Begin()
      modifies this`asked, this`earlier
      ensures asked == 0 && earlier == old(earlier) + old(asked) && !Broke()
      ensures old(Valid()) ==> Valid()
    {
      earlier, asked := earlier + asked, 0;
    }

    /** fat_next: 1 with the next cluster, 0 at the end of the chain, or an error. */
    method FatNext(c: nat) returns (r: int, next: nat)
      requires Sized(fat)
      modifies this`asked
      ensures r <= 1 && (old(Broke()) ==> Broke())
      ensures r >= 0 ==> Broke() == old(Broke())
      ensures r == 1 ==> InVolume(fat, c) && InVolume(fat, next) && fat[c] == next
      ensures r == 0 ==> InVolume(fat, c) && fat[c] >= EOC_MIN
      ensures r < 0 ==> Broke() || !InVolume(fat, c) || (!InVolume(fat, fat[c]) && fat[c] < EOC_MIN)
    {
      if c < 2 || c >= |fat| { return EIO, 0; }
      r := Fetch();
      if r < 0 { return r, 0; }
      var value := fat[c];
      if value >= EOC_MIN { return 0, 0; }
      if value < 2 || value >= |fat| { return EIO, 0; }
      return 1, value;
    }

    /** fat_set on the logical table. */
    method FatSet(c: nat, value: nat) returns (r: int)
      requires Sized(fat)
      modifies this`asked, this`fat
      ensures r <= 0 && (old(Broke()) ==> Broke())
      ensures r >= 0 ==> Broke() == old(Broke())
      ensures r < 0 ==> fat == old(fat) && (Broke() || !InVolume(fat, c))
      ensures r == 0 ==> InVolume(old(fat), c) && fat == old(fat)[c := value]
    {
      if c < 2 || c >= |fat| { return EIO; }
      r := Fetch();
      if r < 0 { return; }
      fat := fat[c := value];
    }

    /** cluster_alloc: the first free cluster after the hint, or no space at all. */
    method ClusterAlloc() returns (r: int, found: nat, ghost skipped: nat)
      requires Base()
      modifies this`asked, this`fat, this`freeCount, this`nextFree
      ensures Base() && r <= 0 && (old(Broke()) ==> Broke())
      ensures r >= 0 ==> Broke() == old(Broke())
      ensures r < 0 ==> fat == old(fat) && freeCount == old(freeCount)
      ensures r < 0 ==>
        Broke() || (r == EROFS && readonly) || (r == ENOSPC && forall c :: InVolume(fat, c) ==> fat[c] != 0)
      ensures r == 0 ==> !readonly && InVolume(old(fat), found) && old(fat)[found] == 0 && fat == old(fat)[found := EOC]
      ensures r == 0 ==> found == Around(|fat|, Hint(old(fat), old(nextFree)), skipped)
      ensures r == 0 ==> Busy(old(fat), Hint(old(fat), old(nextFree)), skipped)
    {
      hide Busy, Zeros, Broke;
      skipped := 0;
      if readonly { return EROFS, 0, 0; }
      var end := |fat|;
      var cl := nextFree;
      if cl < 2 || cl >= end { cl := 2; }
      var remaining := end - 2;
      ghost var start := Hint(fat, nextFree);
      BusyNone(fat, start);
      while remaining > 0
        invariant 0 <= remaining <= end - 2 && fat == old(fat) && freeCount == old(freeCount)
        invariant nextFree == old(nextFree)
        invariant Broke() == old(Broke())
        invariant remaining > 0 ==> cl == Around(end, start, end - 2 - remaining)
        invariant Busy(fat, start, end - 2 - remaining)
      {
        var span := PER_SECTOR - cl % PER_SECTOR;
        if span > remaining { span := remaining; }
        if span > end - cl { span := end - cl; }
        r := Fetch();
        if r < 0 { return r, 0, 0; }
        var i := Scan(cl, span);
        BusyMore(fat, start, end - 2 - remaining, cl, i);
        if i < span {
          found, skipped := cl + i, end - 2 - remaining + i;
          Take(found);
          return 0, found, skipped;
        }
        cl := cl + span;
        if cl >= end { cl := 2; }
        remaining := remaining - span;
      }
      AllBusy(fat, start);
      return ENOSPC, 0, 0;
    }

    /** The entries of one sector of the table, up to the first free one. */
    method Scan(cl: nat, span: nat) returns (i: nat)
      requires cl + span <= |fat|
      ensures i <= span && (forall c :: cl <= c < cl + i ==> fat[c] != 0) && (i < span ==> fat[cl + i] == 0)
    {
      i := 0;
      while i < span && fat[cl + i] != 0
        invariant i <= span && forall c :: cl <= c < cl + i ==> fat[c] != 0
      {
        i := i + 1;
      }
    }

    /** The mark, the count and the hint, under the lock. */
    method Take(found: nat)
      requires Base() && InVolume(fat, found) && fat[found] == 0
      modifies this`fat, this`freeCount, this`nextFree
      ensures Base() && fat == old(fat)[found := EOC]
    {
      ZerosUpdate(fat, |fat|, found, EOC);
      fat := fat[found := EOC];
      if freeCount != UNKNOWN && freeCount > 0 { freeCount := freeCount - 1; }
      nextFree := if found + 1 < |fat| then found + 1 else 2;
    }

    /** fat32_free_clusters: the number of free clusters, counted if it is unknown. */
    method FreeClusters() returns (r: int, count: nat)
      requires Base()
      modifies this`asked, this`freeCount
      ensures Base() && r <= 0 && (Broke() <==> old(Broke()) || r < 0) && (r < 0 ==> freeCount == old(freeCount))
      ensures r == 0 ==> count == freeCount == Zeros(fat, |fat|)
    {
      count := freeCount;
      ZerosBound(fat, |fat|);
      if count == UNKNOWN {
        r, count := CountFree();
        if r < 0 { return; }
        freeCount := count;
      }
      return 0, count;
    }

    /** fat_count_free: sector after sector of the table. */
    method CountFree() returns (r: int, count: nat)
      requires Base()
      modifies this`asked
      ensures Base() && r <= 0 && (Broke() <==> old(Broke()) || r < 0)
      ensures (r == 0 ==> count == Zeros(fat, |fat|))
    {
      count, r := 0, 0;
      var base := 0;
      while base < |fat|
        invariant 0 <= base <= |fat| && Base() && Broke() == old(Broke()) && count == Zeros(fat, base)
      {
        r := Fetch();
        if r < 0 { return r, 0; }
        var i := 0;
        while i < PER_SECTOR && base + i < |fat|
          invariant 0 <= i && base + i <= |fat| && count == Zeros(fat, base + i)
        {
          if base + i >= 2 && fat[base + i] == 0 { count := count + 1; }
          i := i + 1;
        }
        base := base + i;
      }
      return 0, count;
    }

    /** cluster_free_chain: a prefix of the chain comes free, all of it unless the
        block layer failed. */
    method FreeChain(first: nat, ghost s: seq<nat>) returns (r: int, ghost n: nat)
      requires Base() && IsChain(fat, s) && first == FirstOf(s)
      modifies this`asked, this`fat, this`freeCount, this`nextFree
      ensures Base() && r <= 0 && (Broke() <==> old(Broke()) || r < 0)
      ensures forall i :: 0 <= i < |s| ==> InVolume(old(fat), s[i])
      ensures n <= |s| && fat == Freed(old(fat), s, n) && (r == 0 ==> n == |s|)
    {
      hide Zeros, Freed, Broke;
      FreedZeros(fat, s, 0);
      FreedNone(fat, s);
      ghost var was := fat;
      var cl, freed, lowest, error := first, 0, 0xFFFF_FFFF, 0;
      n := 0;
      while 2 <= cl < |fat|
        invariant Base0(was) && n <= |s| && fat == Freed(was, s, n) && freed == n && error == 0
        invariant freeCount == old(freeCount) && nextFree == old(nextFree) && Broke() == old(Broke())
        invariant n < |s| ==> cl == s[n]
        invariant n == |s| ==> cl == 0
        decreases |s| - n
      {
        FreedZeros(was, s, n + 1);
        FreedStep(was, s, n);
        if freed >= |fat| - 2 { error := EIO; break; }
        var link, next := FatNext(cl);
        var result := FatSet(cl, 0);
        if result < 0 { error := result; break; }
        freed := freed + 1;
        n := n + 1;
        if cl < lowest { lowest := cl; }
        if link <= 0 {
          if link < 0 { error := link; }
          break;
        }
        cl := next;
      }
      FreedZeros(was, s, n);
      if freed > 0 {
        if freeCount != UNKNOWN {
          ZerosBound(fat, |fat|);
          freeCount := AtMost(freeCount + freed, |fat| - 2);
        }
        if lowest < nextFree { nextFree := lowest; }
      }
      return error, n;
    }

    ghost predicate Base0(was: Table)
      reads this
    {
      && Sized(fat) && |data| == |fat| && Counted(was, freeCount) && |was| == |fat|
      && csize > 0 && csize % SECTOR == 0 && AllSized(data, csize)
    }

    /** cluster_zero: sector after sector. */
    method ClusterZero(c: nat) returns (r: int)
      requires Base() && InVolume(fat, c)
      modifies this`asked, this`data
      ensures Base() && r <= 0 && (Broke() <==> old(Broke()) || r < 0)
      ensures OnlyAt(old(data), data, c) && (r == 0 ==> data[c] == ZeroBytes(csize))
    {
      hide Counted, Broke;
      r := 0;
      for i := 0 to csize / SECTOR
        invariant Base() && OnlyAt(old(data), data, c) && Broke() == old(Broke())
        invariant forall k :: 0 <= k < i * SECTOR ==> data[c][k] == 0
      {
        r := Fetch();
        if r < 0 { return; }
        data := data[c := Splice(data[c], i * SECTOR, ZeroBytes(SECTOR))];
      }
      assert data[c] == ZeroBytes(csize);
      return 0;
    }

    /** chain_grow: one more cluster at the end of the chain; on failure the chain
        is as it was, and nothing at all has changed unless the block layer failed. */
    method Grow(prev: nat, zero: bool, ghost s: seq<nat>) returns (r: int, added: nat)
      requires Base() && IsChain(fat, s) && prev == LastOf(s)
      modifies this`asked, this`fat, this`data, this`freeCount, this`nextFree
      ensures Base() && r <= 0 && (old(Broke()) ==> Broke())
      ensures r >= 0 ==> Broke() == old(Broke())
      ensures Sprouted(old(fat), old(data), s, fat, data, if r == 0 then s + [added] else s)
      ensures DataKept(old(fat), old(data), data, [])
      ensures r < 0 && !Broke() ==> fat == old(fat) && data == old(data)
      ensures r < 0 ==> Broke() || Denied(r)
      ensures r == 0 ==> added < |data| && (zero ==> data[added] == ZeroBytes(csize))
      ensures !Broke() ==> Spent(old(fat), s, fat, if r == 0 then s + [added] else s)
    {
      hide Counted, IsChain, Freed, Broke, Spent;
      NothingSpent(fat, s);
      r := 0;
      ghost var skipped;
      r, added, skipped := ClusterAlloc();
      if r < 0 {
        NoGrowth(fat, data, s);
        return;
      }
      ghost var c := added;
      FreshCluster(old(fat), s, c);
      if zero { r := ClusterZero(added); }
      ghost var mid := data;
      if r == 0 && prev != 0 {
        StillCounted(fat, freeCount, prev, added);
        r := FatSet(prev, added);
      }
      if r < 0 {
        ChainNew(old(fat), c);
        var ignored, n := FreeChain(added, [c]);
        TakenBack(old(fat), old(data), s, c, n, fat, data);
        return;
      }
      Appended(old(fat), old(data), s, c, fat, data);
      OneSpent(old(fat), s, c, fat);
    }

    /** The start of file_put: the cached place of the chain if it is not too far, else its start, with a first cluster
        if there is none. */
    method Enter(node: Node, index: nat, covered: bool, ghost s: seq<nat>)
      returns (r: int, after: Node, at: nat, cluster: nat, ghost t: seq<nat>)
      requires Base() && IsChain(fat, s) && Placed(node, s)
      modifies this`asked, this`fat, this`data, this`freeCount, this`nextFree
      ensures Base() && r <= 0 && (old(Broke()) ==> Broke())
      ensures r >= 0 ==> Broke() == old(Broke())
      ensures Sprouted(old(fat), old(data), s, fat, data, t) && DataKept(old(fat), old(data), data, [])
      ensures IsChain(fat, t) && Placed(after, t)
      ensures after == node.(first := after.first, at := after.at, cluster := after.cluster, dirty := after.dirty)
      ensures Marked(node, after)
      ensures r == 0 ==> at <= index && at < |t| && cluster == t[at]
      ensures (r < 0 ==> Broke() || Denied(r)) && (r < 0 ==> |t| <= index)
      ensures |t| > |s| ==> |t| <= index + 1
      ensures !Broke() ==> Blank(data, t, Start(|s|, csize), Start(index, csize), if covered then csize else 0)
      ensures !Broke() ==> Spent(old(fat), s, fat, t)
    {
      hide Counted, IsChain, Sprouted, DataKept, Broke, Spent, Blank, Start;
      ghost var from, place, room := Start(|s|, csize), Start(index, csize), if covered then csize else 0;
      ChainInside(fat, data, s);
      BlankNone(data, s, csize, place, room);
      NothingSpent(fat, s);
      r, after, t := 0, node, s;
      at, cluster := 0, node.first;
      if node.cluster != 0 && node.at <= index { at, cluster := node.at, node.cluster; }
      NoGrowth(fat, data, s);
      if at < |s| { ChainStarts(fat, s, at); }
      if cluster < 2 {
        r, cluster := Grow(0, !(index == 0 && covered), s);
        if r < 0 {
          SproutChain(old(fat), old(data), s, fat, data, s);
          BlankSame(old(fat), old(data), data, s, from, place, room);
          return;
        }
        assert s == [];
        BlankSame(old(fat), old(data), data, s, from, place, room);
        BlankGrown(data, s, cluster, csize, from, place, room);
        at, t := 0, s + [cluster];
        after := node.(first := cluster, at := 0, cluster := cluster, dirty := true);
      }
      SproutChain(old(fat), old(data), s, fat, data, t);
    }

    /** The first half of file_put: the chain up to the cluster of the offset,
        extended as needed. */
    method Seek(node: Node, index: nat, covered: bool, ghost s: seq<nat>)
      returns (r: int, after: Node, cluster: nat, ghost t: seq<nat>)
      requires Base() && IsChain(fat, s) && Placed(node, s)
      modifies this`asked, this`fat, this`data, this`freeCount, this`nextFree
      ensures Base() && r <= 0 && (old(Broke()) ==> Broke())
      ensures r >= 0 ==> Broke() == old(Broke())
      ensures Sprouted(old(fat), old(data), s, fat, data, t) && DataKept(old(fat), old(data), data, [])
      ensures Placed(after, t)
      ensures after == node.(first := after.first, at := after.at, cluster := after.cluster, dirty := after.dirty)
      ensures Marked(node, after)
      ensures r == 0 ==> index < |t| && cluster == t[index]
      ensures (r < 0 ==> Broke() || Denied(r)) && (r < 0 && !Broke() ==> |t| <= index)
      ensures |t| > |s| ==> |t| <= index + 1
      ensures !Broke() ==> Blank(data, t, Start(|s|, csize), Start(index, csize), if covered then csize else 0)
      ensures !Broke() ==> Spent(old(fat), s, fat, t)
    {
      hide Counted, IsChain, Sprouted, DataKept, Broke, Spent, Blank, Start, Marked;
      ghost var from, place, room := Start(|s|, csize), Start(index, csize), if covered then csize else 0;
      var at;
      r, after, at, cluster, t := Enter(node, index, covered, s);
      if r < 0 { return; }
      while at < index
        invariant Base() && at <= index && Broke() == old(Broke()) && IsChain(fat, t)
        invariant Sprouted(old(fat), old(data), s, fat, data, t) && DataKept(old(fat), old(data), data, [])
        invariant Placed(after, t)
        invariant at < |t| && cluster == t[at] && (|t| > |s| ==> |t| <= index + 1)
        invariant !Broke() ==> Spent(old(fat), s, fat, t)
        invariant !Broke() ==> Blank(data, t, from, place, room)
      {
        ghost var f1, d1, u := fat, data, t;
        r, cluster, t := Advance(at, cluster, !(at + 1 == index && covered), u, from, place, room);
        SproutTrans(old(fat), old(data), s, f1, d1, u, fat, data, t);
        StillPlaced(after, f1, u, t);
        SpentThen(old(fat), s, f1, u, fat, t);
        if r < 0 { return; }
        at := at + 1;
      }
      return 0, after, cluster, t;
    }

    /** The next cluster of the chain, a new one at its end. */
    method Advance(at: nat, cluster: nat, zero: bool, ghost t: seq<nat>, ghost from: nat, ghost b: nat, ghost n: nat)
      returns (r: int, next: nat, ghost u: seq<nat>)
      requires Base() && IsChain(fat, t) && at < |t| && cluster == t[at]
      requires !Broke() ==> Blank(data, t, from, b, n)
      requires !zero && at + 1 == |t| ==> b <= Start(|t|, csize) && Start(|t|, csize) + csize <= b + n
      modifies this`asked, this`fat, this`data, this`freeCount, this`nextFree
      ensures Base() && r <= 0 && (old(Broke()) ==> Broke())
      ensures r >= 0 ==> Broke() == old(Broke())
      ensures Sprouted(old(fat), old(data), t, fat, data, u) && DataKept(old(fat), old(data), data, [])
      ensures IsChain(fat, u) && (u == t || (|u| == |t| + 1 && u[..|t|] == t)) && Extended(old(fat), t, u)
      ensures r == 0 ==> at + 1 < |u| && next == u[at + 1]
      ensures r < 0 ==> u == t
      ensures !Broke() ==> Blank(data, u, from, b, n)
      ensures (r < 0 ==> Broke() || Denied(r)) && (r < 0 && !Broke() ==> at + 1 == |u|) && (|u| > |t| ==> at + 1 == |t|)
      ensures !Broke() ==> Spent(old(fat), t, fat, u)
    {
      hide Counted, IsChain, Sprouted, DataKept, Extended, Broke, Spent, Blank, Start;
      NothingSpent(fat, t);
      ChainAt(fat, t, at);
      NoGrowth(fat, data, t);
      SproutChain(fat, data, t, fat, data, t);
      r, next := FatNext(cluster);
      u := t;
      if r < 0 { return; }
      if r == 0 {
        ghost var f1, d1 := fat, data;
        r, next := Grow(cluster, zero, t);
        u := if r == 0 then t + [next] else t;
        SproutChain(f1, d1, t, fat, data, u);
        if !Broke() {
          BlankSame(f1, d1, data, t, from, b, n);
          if r == 0 { BlankGrown(data, t, next, csize, from, b, n); }
        }
        return;
      }
      return 0, next, u;
    }

    /** The second half of file_put: the bytes, chunk by chunk. A failing chunk may leave
        some of its sectors written, beyond the bytes that are counted. */
    method PutRun(place: nat, start: nat, offset: nat, src: seq<bv8>, ghost s: seq<nat>, ghost from: nat)
      returns (r: int, done: nat, at: nat, cluster: nat, ghost t: seq<nat>, ghost landed: nat)
      requires Base() && IsChain(fat, s) && place < |s| && start == s[place] && place == IndexOf(offset, csize)
      requires !Broke() ==> Blank(data, s, from, offset, |src|)
      modifies this`asked, this`fat, this`data, this`freeCount, this`nextFree
      ensures Base() && r <= 0 && (old(Broke()) ==> Broke()) && done <= landed <= |src| && (r == 0 ==> done == |src|)
      ensures (r >= 0 ==> Broke() == old(Broke())) && (r < 0 && src != [] ==> done < |src|)
      ensures Progress(old(fat), old(data), s, fat, data, t, offset, src[..landed]) && at < |t| && cluster == t[at]
      ensures (r < 0 ==> Broke() || Denied(r)) && (landed > done ==> Broke() && WholeSectors(landed - done))
      ensures (!Broke() ==> Spent(old(fat), s, fat, t))
      ensures (r < 0 && !Broke() ==> Start(|t|, csize) == offset + done && done < |src|)
      ensures |t| > |s| ==> Start(|t| - 1, csize) < offset + |src|
      ensures !Broke() ==> Blank(data, t, from, offset, done)
    {
      hide WholeSectors, Counted, IsChain, Progress, Start, Sprouted, DataKept, Extended, Broke, Spent, Blank;
      hide Flat, Splice, AllSized, OnlyAt, Inside, Denied;
      NothingSpent(fat, s);
      r, done, at, cluster, t, landed := 0, 0, place, start, s, 0;
      Position(offset, csize);
      StartWrite(fat, data, s, csize, place, offset);
      assert src[..0] == [];
      while done < |src|
        invariant Base() && 0 <= done <= |src| && r == 0 && Broke() == old(Broke()) && IsChain(fat, t)
        invariant landed == done
        invariant Progress(old(fat), old(data), s, fat, data, t, offset, src[..done]) && at < |t| && cluster == t[at]
        invariant Start(at, csize) <= offset + done && (|t| > |s| ==> Start(|t| - 1, csize) < offset + |src|)
        invariant !Broke() ==> Spent(old(fat), s, fat, t)
        invariant done < |src| ==> offset + done < Start(at, csize) + csize
        invariant !Broke() ==> Blank(data, t, from, offset, |src|)
      {
        ghost var d0 := data;
        ghost var got;
        var chunk;
        r, chunk, got := PutPiece(at, cluster, offset + done, src[done..], t, from, offset, |src|);
        PutMore(old(fat), old(data), s, fat, d0, data, t, at, offset, src, done, got);
        landed := done + got;
        if r < 0 { return; }
        done := done + chunk;
        Boundary(offset + done, at, csize);
        if done < |src| && (offset + done) % csize == 0 {
          ghost var f1, d1, u := fat, data, t;
          var next;
          r, next, t := Advance(at, cluster, |src| - done < csize, u, from, offset, |src|);
          GrownWrite(old(fat), old(data), s, f1, d1, u, fat, data, t, offset, src[..done]);
          SpentThen(old(fat), s, f1, u, fat, t);
          if r < 0 {
            if !Broke() { BlankEnd(data, t, csize, from, offset, |src|, done); }
            return;
          }
          cluster, at := next, at + 1;
        }
      }
    }

    /** One chunk: whole sectors inside the cluster, or part of one sector. If the block
        layer fails, none or some of the whole sectors are written. */
    method PutPiece(at: nat, cluster: nat, pos: nat, rest: seq<bv8>, ghost t: seq<nat>, ghost from: nat, ghost b: nat,
                    ghost n: nat)
      returns (r: int, chunk: nat, ghost landed: nat)
      requires Base() && IsChain(fat, t) && at < |t| && cluster == t[at] && |rest| > 0
      requires Start(at, csize) <= pos < Start(at, csize) + csize
      requires b <= pos && pos + |rest| <= b + n && (!Broke() ==> Blank(data, t, from, b, n))
      modifies this`asked, this`data
      ensures Base() && r <= 0 && (Broke() <==> old(Broke()) || r < 0)
      ensures Inside(data, t) && Inside(old(data), t) && cluster < |data| && OnlyAt(old(data), data, cluster)
      ensures 0 < chunk <= |rest| && pos + chunk <= Start(at, csize) + csize && landed <= |rest|
      ensures pos + landed <= |Flat(old(data), t)|
      ensures if r == 0 then landed == chunk else landed < chunk && WholeSectors(landed)
      ensures !Broke() ==> Blank(data, t, from, b, n)
      ensures Flat(data, t) == Splice(Flat(old(data), t), pos, rest[..landed])
    {
      hide Counted, IsChain, Flat, Splice, ChunkOf, Through, WholeSectors, Broke, Blank;
      ChainInside(fat, data, t);
      PositionIs(pos, at, csize);
      ChainAt(fat, t, at);
      var inCluster := pos % csize;
      chunk := ChunkOf(inCluster, |rest|, csize);
      var wrote := chunk;
      r := Fetch();
      if r < 0 { wrote := Through(through(earlier + asked), chunk); }
      landed := wrote;
      data := data[cluster := Splice(data[cluster], inCluster, rest[..wrote])];
      FlatSplice(old(data), data, t, csize, at, inCluster, rest[..wrote]);
      if !Broke() { BlankWrite(old(data), data, t, from, b, n, pos, rest[..wrote]); }
    }

    /** file_put on the chain of a file: the bytes from an offset on, as far as they got. */
    method PutChain(node: Node, offset: nat, src: seq<bv8>, ghost s: seq<nat>)
      returns (r: int, done: nat, after: Node, ghost u: seq<nat>, ghost landed: nat)
      requires Base() && IsChain(fat, s) && Placed(node, s) && Inside(data, s)
      modifies this`asked, this`fat, this`data, this`freeCount, this`nextFree
      ensures Base() && r <= 0 && (old(Broke()) ==> Broke()) && done <= landed <= |src| && (r == 0 ==> done == |src|)
      ensures (r >= 0 ==> Broke() == old(Broke())) && (r < 0 && src != [] ==> done < |src|)
      ensures Sprouted(old(fat), old(data), s, fat, data, u) && Placed(after, u)
      ensures after == node.(first := after.first, at := after.at, cluster := after.cluster, dirty := after.dirty)
      ensures Marked(node, after)
      ensures Inside(data, u) && Written(Flat(old(data), s), Flat(data, u), offset, src[..landed])
      ensures (r < 0 ==> Broke() || Denied(r)) && (landed > done ==> Broke() && WholeSectors(landed - done))
      ensures !Broke() ==> Blank(data, u, Start(|s|, csize), offset, done)
      ensures Accounted(old(fat), s, fat, u, csize, r < 0, Broke(), offset, done, |src|)
    {
      hide WholeSectors, Counted, IsChain, Progress, Sprouted, DataKept, Written, Flat, IndexOf, Fills, Broke, Spent;
      hide Start, Blank;
      var index := IndexOf(offset, csize);
      var covered := Fills(offset, |src|, csize);
      var cluster, at;
      ghost var t;
      landed := 0;
      r, after, cluster, t := Seek(node, index, covered, s);
      SproutChain(old(fat), old(data), s, fat, data, t);
      Longer(old(fat), old(data), s, fat, data, t, csize, offset);
      assert src[..0] == [];
      Indexed(offset, csize, |t|);
      ghost var lead := if covered then csize else 0;
      if covered { FilledAt(offset, |src|, csize); }
      if !Broke() { BlankMore(data, t, Start(|s|, csize), Start(index, csize), lead, offset, |src|); }
      if r < 0 {
        if !Broke() { BlankEnd(data, t, csize, Start(|s|, csize), offset, |src|, 0); }
        return r, 0, after, t, 0;
      }
      ghost var f1, d1 := fat, data;
      r, done, at, cluster, u, landed := PutRun(index, cluster, offset, src, t, Start(|s|, csize));
      SpentThen(old(fat), s, f1, t, fat, u);
      Indexed(offset, csize, |u|);
      after := after.(at := at, cluster := cluster);
      Finish(old(fat), old(data), s, f1, d1, t, fat, data, u, after, offset, src[..landed]);
    }

    /** file_put seen by the whole volume. */
    method FilePut(f: nat, offset: nat, src: seq<bv8>) returns (r: int, done: nat, ghost landed: nat)
      requires Valid() && f in nodes
      modifies this`asked, this`fat, this`data, this`freeCount, this`nextFree, this`nodes, this`chains
      ensures Valid() && r <= 0 && (old(Broke()) ==> Broke()) && done <= landed <= |src| && (r == 0 ==> done == |src|)
      ensures (r >= 0 ==> Broke() == old(Broke())) && (r < 0 && src != [] ==> done < |src|)
      ensures OnlyFile(old(nodes), nodes, f) && f in nodes && nodes[f].size == old(nodes)[f].size
      ensures SameKind(old(nodes)[f], nodes[f])
      ensures Marked(old(nodes)[f], nodes[f])
      ensures Rewritten(old(data), old(chains), data, chains, f, offset, src[..landed])
      ensures (r < 0 ==> Broke() || Denied(r)) && (landed > done ==> Broke() && WholeSectors(landed - done))
      ensures f in old(chains) && f in chains && OnlyChain(old(chains), chains, f)
      ensures !Broke() ==> Blank(data, chains[f], Start(|old(chains)[f]|, csize), offset, done)
      ensures Accounted(old(fat), old(chains)[f], fat, chains[f], csize, r < 0, Broke(), offset, done, |src|)
    {
      hide WholeSectors, Counted, IsChain, Sprouted, AllChains, AllKept, Written, Elsewhere, Flat, Broke, Accounted;
      hide Blank, Start;
      FileAt(fat, data, chains, nodes, entries, csize, f);
      ghost var s, u := chains[f], [];
      var node;
      r, done, node, u, landed := PutChain(nodes[f], offset, src, s);
      FileStep(old(fat), old(data), chains, nodes, entries, csize, f, fat, data, u, node);
      nodes, chains := nodes[f := node], chains[f := u];
    }

    /** file_put, and node_touch if bytes were written or in any case: part of a file overwritten, its size following
        the bytes
        that are counted. If the block layer fails, whole sectors behind those may have
        been written too; a reader sees of them what lies inside the file. */
    method Put(f: nat, offset: nat, src: seq<bv8>, touch: bool) returns (r: int, done: nat, ghost reach: nat)
      requires Valid() && f in nodes && offset <= nodes[f].size && offset + |src| <= MAX_SIZE
      modifies this`asked, this`fat, this`data, this`freeCount, this`nextFree, this`nodes, this`chains
      ensures Valid() && r <= 0 && (old(Broke()) ==> Broke()) && done <= reach <= |src| && (r == 0 ==> done == |src|)
      ensures (r >= 0 ==> Broke() == old(Broke())) && (r < 0 && src != [] ==> done < |src|)
      ensures nodes.Keys == old(nodes).Keys && SameKinds(old(nodes), nodes)
      ensures View() == old(View())[f := Overwrite(old(View())[f], offset, src[..reach])]
      ensures nodes[f].size == if offset + done > old(nodes)[f].size then offset + done else old(nodes)[f].size
      ensures (r < 0 ==> Broke() || Denied(r)) && (reach > done ==> Broke() && offset + reach <= old(nodes)[f].size)
      ensures f in old(chains) && f in chains && OnlyChain(old(chains), chains, f)
      ensures !Broke() ==> Blank(data, chains[f], Start(|old(chains)[f]|, csize), offset, done)
      ensures !Broke() && !readonly && src != [] ==>
        Landed(old(fat), old(chains)[f], fat, chains[f], csize, r, offset, done, |src|)
    {
      hide Full, ViewOf, Blank, Start, AllSized;
      hide WholeSectors, Good, Rewritten, OnlyFile, Overwrite, Counted, SameKinds, Broke, Accounted, Landed, OnlyChain;
      ghost var before := Now();
      ghost var landed;
      r, done, landed := FilePut(f, offset, src);
      ghost var mid := Now();
      NodesKept(before.nodes, nodes, f);
      OneKind(before.nodes, nodes, f, nodes[f]);
      var size := nodes[f].size;
      if done > 0 && offset + done > size { size := offset + done; }
      reach := if landed > done && offset + landed > size then size - offset else landed;
      assert src[..landed][..reach] == src[..reach];
      var node := nodes[f].(size := size, dirty := nodes[f].dirty || touch || done > 0);
      TouchView(before, mid, f, offset, src[..landed], reach, node);
      OneKind(before.nodes, nodes, f, node);
      nodes := nodes[f := node];
      assert Now() == mid.(nodes := mid.nodes[f := node]);
      if !Broke() && !readonly && src != [] { PutExact(before, Now(), f, r, offset, done, |src|); }
    }

    /** write_check. */
    function Check(f: nat): int
      requires f in nodes
      reads this
    {
      if nodes[f].isDir then EISDIR else if readonly then EROFS else if nodes[f].readOnly then EACCES else 0
    }

    /** fat32_write: zeros from the end of the file up to the offset, then the
        bytes, as far as the volume has room. */
    method Write(f: nat, offset: nat, buffer: seq<bv8>) returns (r: int, ghost hole: nat, ghost reach: nat)
      requires Valid() && f in nodes && offset <= MAX_SIZE
      modifies this`asked, this`fat, this`data, this`freeCount, this`nextFree, this`nodes, this`chains
      ensures Valid() && nodes.Keys == old(nodes).Keys && (old(Broke()) ==> Broke()) && SameKinds(old(nodes), nodes)
      ensures r <= reach <= |buffer| && (r == Fitting(|buffer|, offset) ==> Broke() == old(Broke()))
      ensures hole <= if offset > old(nodes)[f].size then offset - old(nodes)[f].size else 0
      ensures reach > 0 ==> offset <= old(nodes)[f].size + hole
      ensures View() == old(View())[f := AfterWrite(old(View())[f], offset, hole, buffer[..reach])]
      ensures reach > 0 && r != reach ==> Broke() && offset + reach <= old(nodes)[f].size
      ensures f in old(chains) && f in chains && OnlyChain(old(chains), chains, f)
      ensures old(Check(f)) != 0 ==> r == old(Check(f))
      ensures old(Check(f)) == 0 && buffer == [] ==> r == 0
      ensures old(Check(f)) == 0 && buffer != [] && offset == MAX_SIZE ==> r == EFBIG
      ensures old(Check(f)) != 0 || buffer == [] || offset == MAX_SIZE ==>
        hole == 0 && reach == 0 && fat == old(fat) && chains == old(chains)
      ensures old(Check(f)) == 0 && buffer != [] && offset < MAX_SIZE ==> r != 0 && r <= Fitting(|buffer|, offset)
      ensures !Broke() && old(Check(f)) == 0 && buffer != [] && offset < MAX_SIZE ==>
        Fulfilled(old(fat), old(chains)[f], fat, chains[f], csize, old(nodes)[f].size, offset,
                  Fitting(|buffer|, offset), r, hole, reach)
      ensures r > 0 ==> hole == if offset > old(nodes)[f].size then offset - old(nodes)[f].size else 0
    {
      hide Good, Overwrite, Base, AfterWrite, ViewOf, Broke, SameKinds, Landed, Fulfilled;
      NodeKind(nodes, f, nodes[f]);
      EntryThere(Now(), f);
      hole, reach := 0, 0;
      ViewKeys(Now());
      NothingWritten(View(), f, offset);
      var check := Check(f);
      if check < 0 { return check, 0, 0; }
      if |buffer| == 0 { return 0, 0, 0; }
      if offset == MAX_SIZE { return EFBIG, 0, 0; }
      var count := |buffer|;
      if count > MAX_COUNT { count := MAX_COUNT; }
      if count > MAX_SIZE - offset { count := MAX_SIZE - offset; }
      r, hole, reach := WriteFitting(f, offset, buffer[..count]);
      assert buffer[..count][..reach] == buffer[..reach];
    }

    /** The part of fat32_write after its checks. */
    method WriteFitting(f: nat, offset: nat, src: seq<bv8>) returns (r: int, ghost hole: nat, ghost reach: nat)
      requires Valid() && f in nodes && src != [] && offset + |src| <= MAX_SIZE && !readonly
      modifies this`asked, this`fat, this`data, this`freeCount, this`nextFree, this`nodes, this`chains
      ensures Valid() && nodes.Keys == old(nodes).Keys && (old(Broke()) ==> Broke()) && SameKinds(old(nodes), nodes)
      ensures r != 0 && r <= reach <= |src| && (r == |src| ==> Broke() == old(Broke()))
      ensures hole <= if offset > old(nodes)[f].size then offset - old(nodes)[f].size else 0
      ensures reach > 0 ==> offset <= old(nodes)[f].size + hole
      ensures View() == old(View())[f := AfterWrite(old(View())[f], offset, hole, src[..reach])]
      ensures reach > 0 && r != reach ==> Broke() && offset + reach <= old(nodes)[f].size
      ensures f in old(chains) && f in chains && OnlyChain(old(chains), chains, f)
      ensures !Broke() ==>
        Fulfilled(old(fat), old(chains)[f], fat, chains[f], csize, old(nodes)[f].size, offset, |src|, r, hole, reach)
      ensures r > 0 ==> hole == if offset > old(nodes)[f].size then offset - old(nodes)[f].size else 0
    {
      hide Good, Overwrite, Base, AfterWrite, ViewOf, Broke, SameKinds, Landed, Fulfilled, OnlyChain;
      EntryThere(Now(), f);
      ViewKeys(Now());
      var result, written;
      result, hole := Fill(f, offset);
      EntryThere(Now(), f);
      ghost var mid, between, fat1, chains1, s1 := View(), nodes, fat, chains, chains[f];
      if result < 0 {
        if !Broke() {
          NotFilled(old(fat), old(chains)[f], fat, chains[f], csize, old(nodes)[f].size, offset, |src|, hole, result);
        }
        return result, hole, 0;
      }
      result, written, reach := Put(f, offset, src, true);
      ChainsThen(old(chains), chains1, chains, f);
      KindsThen(old(nodes), between, nodes);
      BothWritten(old(View()), mid, View(), f, offset, hole, src[..reach]);
      EntryThere(Now(), f);
      if !Broke() {
        FilledFirst(old(fat), old(chains)[f], fat1, s1, fat, chains[f], csize, old(nodes)[f].size, offset, |src|, hole,
                    result, written);
      }
      if written > 0 { return written, hole, reach; }
      return if result < 0 then result else EIO, hole, reach;
    }

    /** The hole of a write beyond the end: zeros up to the offset. */
    method Fill(f: nat, offset: nat) returns (r: int, ghost hole: nat)
      requires Valid() && f in nodes && offset <= MAX_SIZE
      modifies this`asked, this`fat, this`data, this`freeCount, this`nextFree, this`nodes, this`chains
      ensures Valid() && nodes.Keys == old(nodes).Keys && (old(Broke()) ==> Broke()) && SameKinds(old(nodes), nodes)
      ensures hole <= if offset > old(nodes)[f].size then offset - old(nodes)[f].size else 0
      ensures r <= 0 && (r == 0 ==> offset <= old(nodes)[f].size + hole == nodes[f].size)
      ensures View() == old(View())[f := old(View())[f] + ZeroBytes(hole)]
      ensures View() == old(View())[f := AfterWrite(old(View())[f], offset, hole, [])]
      ensures if r < 0 then Broke() || Denied(r) else Broke() == old(Broke())
      ensures f in old(chains) && f in chains && OnlyChain(old(chains), chains, f)
      ensures if offset <= old(nodes)[f].size then r == 0 && hole == 0 && fat == old(fat) && chains == old(chains) else
        (!Broke() && !readonly ==>
         Landed(old(fat), old(chains)[f], fat, chains[f], csize, r, old(nodes)[f].size, hole,
                offset - old(nodes)[f].size))
    {
      hide Good, Overwrite, Base, AfterWrite, ViewOf, Broke, SameKinds, Landed;
      NodeKind(nodes, f, nodes[f]);
      EntryThere(Now(), f);
      ViewKeys(Now());
      var size := nodes[f].size;
      NothingWritten(View(), f, offset);
      if offset <= size { return 0, 0; }
      var filled;
      ghost var reach;
      r, filled, reach := Put(f, size, ZeroBytes(offset - size), false);
      hole := filled;
      assert ZeroBytes(offset - size)[..filled] == ZeroBytes(filled);
      HoleFilled(old(View()), View(), f, size, hole, offset);
    }

    /** fat32_read: the bytes of the file from an offset on; all that were asked
        for and exist, unless the block layer failed. */
    method Read(f: nat, offset: nat, count: nat) returns (r: int, out: seq<bv8>)
      requires Valid() && f in nodes
      modifies this`asked, this`nodes
      ensures Valid() && View() == old(View()) && nodes.Keys == old(nodes).Keys && (old(Broke()) ==> Broke())
      ensures SameKinds(old(nodes), nodes)
      ensures !old(nodes)[f].isDir ==>
        (r == 0 <==> Least(count, offset, |View()[f]|) == 0) && r <= Least(count, offset, |View()[f]|)
      ensures old(nodes)[f].isDir ==> r == EISDIR && out == []
      ensures r >= 0 ==>
        r == |out| <= count && (r == 0 || offset + r <= |View()[f]|) && (r > 0 ==> out == View()[f][offset..offset + r])
      ensures r < 0 ==> out == [] && (Broke() || old(nodes)[f].isDir)
      ensures r >= 0 ==> (Broke() <==> old(Broke()) || r < Least(count, offset, |View()[f]|))
    {
      hide Good, ViewOf, Broke, SameKinds;
      NodeKind(nodes, f, nodes[f]);
      out := [];
      ViewKeys(Now());
      ContentsAt(Now(), f);
      if nodes[f].isDir { return EISDIR, []; }
      var size := nodes[f].size;
      if offset >= size || count == 0 { return 0, []; }
      var want := count;
      if want > size - offset { want := size - offset; }
      if want > MAX_COUNT { want := MAX_COUNT; }
      var error, node;
      error, node, out := ReadChain(nodes[f], offset, want, chains[f]);
      CursorMoved(Now(), f, node);
      TakenFirst(out, Flat(data, chains[f]), offset, size);
      NodeKind(nodes, f, node);
      nodes := nodes[f := node];
      if |out| > 0 { return |out|, out; }
      return if error < 0 then error else EIO, [];
    }

    method ReadChain(node: Node, offset: nat, want: nat, ghost s: seq<nat>)
      returns (error: int, after: Node, out: seq<bv8>)
      requires Base() && IsChain(fat, s) && Inside(data, s) && Placed(node, s) && want > 0
      requires offset + want <= |Flat(data, s)|
      modifies this`asked
      ensures Base() && error <= 0 && (Broke() <==> old(Broke()) || error < 0)
      ensures error == 0 <==> |out| == want
      ensures |out| <= want && Taken(out, Flat(data, s), offset)
      ensures Placed(after, s) && after == node.(at := after.at, cluster := after.cluster)
    {
      hide Counted, IsChain, Flat, Start, Taken, Broke;
      TakenNone(Flat(data, s), offset);
      out, after := [], node;
      var index := offset / csize;
      var at, cluster := 0, node.first;
      if node.cluster != 0 && node.at <= index { at, cluster := node.at, node.cluster; }
      FlatSize(data, s, csize);
      Position(offset, csize);
      Reaches(s, csize, index, offset);
      if at < |s| { ChainStarts(fat, s, at); }
      if cluster < 2 { return EIO, node, []; }
      while at < index
        invariant Base() && at <= index < |s| && cluster == s[at] && Broke() == old(Broke())
      {
        ChainAt(fat, s, at);
        var link, next := FatNext(cluster);
        if link < 0 { return link, node, []; }
        if link == 0 { return EIO, node, []; }
        cluster, at := next, at + 1;
      }
      error, at, cluster, out := ReadRun(at, cluster, offset, want, s);
      after := node.(at := at, cluster := cluster);
    }

    method ReadRun(place: nat, start: nat, offset: nat, want: nat, ghost s: seq<nat>)
      returns (error: int, at: nat, cluster: nat, out: seq<bv8>)
      requires Base() && IsChain(fat, s) && Inside(data, s) && place < |s| && start == s[place]
      requires place == offset / csize
      requires want > 0 && offset + want <= |Flat(data, s)|
      modifies this`asked
      ensures Base() && error <= 0 && (Broke() <==> old(Broke()) || error < 0)
      ensures error == 0 <==> |out| == want
      ensures |out| <= want && Taken(out, Flat(data, s), offset) && at < |s| && cluster == s[at]
    {
      hide Counted, IsChain, Flat, Start, Taken, Broke;
      TakenNone(Flat(data, s), offset);
      error, at, cluster, out := 0, place, start, [];
      FlatSize(data, s, csize);
      Position(offset, csize);
      while |out| < want
        invariant Base() && |out| <= want && error == 0 && Broke() == old(Broke()) && at < |s| && cluster == s[at]
        invariant Taken(out, Flat(data, s), offset)
        invariant Start(at, csize) <= offset + |out|
        invariant |out| < want ==> offset + |out| < Start(at, csize) + csize
      {
        var piece;
        error, piece := GetPiece(at, cluster, offset + |out|, want - |out|, s);
        if error < 0 { return; }
        TakenMore(out, piece, Flat(data, s), offset);
        out := out + piece;
        Boundary(offset + |out|, at, csize);
        if |out| < want && (offset + |out|) % csize == 0 {
          Reaches(s, csize, at + 1, offset + |out|);
          ChainAt(fat, s, at);
          var link, next := FatNext(cluster);
          if link <= 0 {
            error := if link < 0 then link else EIO;
            return;
          }
          cluster, at := next, at + 1;
        }
      }
    }

    method GetPiece(at: nat, cluster: nat, pos: nat, rest: nat, ghost s: seq<nat>) returns (r: int, piece: seq<bv8>)
      requires Base() && IsChain(fat, s) && Inside(data, s) && at < |s| && cluster == s[at] && rest > 0
      requires Start(at, csize) <= pos < Start(at, csize) + csize
      modifies this`asked
      ensures Base() && r <= 0 && (Broke() <==> old(Broke()) || r < 0)
      ensures r == 0 ==>
        0 < |piece| <= rest && pos + |piece| <= Start(at, csize) + csize && Taken(piece, Flat(data, s), pos)
    {
      hide Counted, IsChain, Flat, Start, Broke;
      piece := [];
      PositionIs(pos, at, csize);
      var inCluster := pos % csize;
      var chunk := ChunkOf(inCluster, rest, csize);
      r := Fetch();
      if r < 0 { return; }
      FlatSlice(data, s, csize, at, inCluster, chunk);
      piece := data[cluster][inCluster..inCluster + chunk];
    }

    /** fat32_node_sync: size and first cluster into the directory entry. */
    method Sync(f: nat) returns (r: int)
      requires f in nodes && f in entries
      modifies this`asked, this`nodes, this`entries
      ensures r <= 0 && (Broke() <==> old(Broke()) || r < 0) && (r < 0 ==> old(nodes)[f].dirty)
      ensures nodes == old(nodes)[f := old(nodes)[f].(dirty := r < 0)]
      ensures entries == if r == 0 && old(nodes)[f].dirty
                         then old(entries)[f := Entry(old(nodes)[f].first, old(nodes)[f].size)] else old(entries)
    {
      var node := nodes[f];
      if !node.dirty {
        assert nodes == nodes[f := node.(dirty := false)];
        return 0;
      }
      nodes := nodes[f := node.(dirty := false)];
      r := Fetch();
      if r < 0 {
        nodes := nodes[f := node.(dirty := true)];
        return;
      }
      entries := entries[f := Entry(node.first, node.size)];
    }

    /** The last cluster that stays and the first of the tail. */
    method FindEnd(node: Node, keep: nat, ghost s: seq<nat>) returns (r: int, last: nat, tail: nat)
      requires Base() && IsChain(fat, s) && Placed(node, s) && 0 < keep <= |s|
      modifies this`asked
      ensures Base() && r <= 0 && (Broke() <==> old(Broke()) || r < 0)
      ensures r == 0 ==> last == s[keep - 1] && tail == FirstOf(s[keep..])
    {
      hide Counted, IsChain, Broke;
      last, tail := 0, 0;
      var at, cluster := 0, node.first;
      if node.cluster != 0 && node.at <= keep - 1 { at, cluster := node.at, node.cluster; }
      var shortChain := false;
      while at < keep - 1
        invariant Base() && at < keep && cluster == s[at] && Broke() == old(Broke()) && !shortChain
      {
        ChainAt(fat, s, at);
        var link, next := FatNext(cluster);
        if link < 0 { return link, 0, 0; }
        if link == 0 { shortChain := true; break; }
        cluster, at := next, at + 1;
      }
      if !shortChain {
        ChainAt(fat, s, at);
        var link, next := FatNext(cluster);
        if link < 0 { return link, 0, 0; }
        last := cluster;
        if link > 0 { tail := next; }
      }
      return 0, last, tail;
    }

    /** fat32_truncate to a smaller size. The entry is written first, then the chain
        is ended, then the tail is freed; wherever that stops, the volume is sound:
        clusters may be lost, none is both free and reachable. */
    method Shrink(f: nat, newSize: nat) returns (r: int, ghost applied: bool)
      requires Valid() && f in nodes && newSize < nodes[f].size
      modifies this`asked, this`fat, this`freeCount, this`nextFree, this`nodes, this`entries, this`chains
      ensures Valid() && nodes.Keys == old(nodes).Keys && r <= 0 && (Broke() <==> old(Broke()) || r < 0)
      ensures SameKinds(old(nodes), nodes)
      ensures newSize <= |old(View())[f]|
      ensures View() == if applied then old(View())[f := old(View())[f][..newSize]] else old(View())
      ensures r == 0 ==> applied && Keep(newSize, csize) <= |old(chains)[f]|
      ensures r == 0 ==> chains == old(chains)[f := old(chains)[f][..Keep(newSize, csize)]]
      ensures r == 0 ==> forall c :: c in old(chains)[f][Keep(newSize, csize)..] ==> InVolume(fat, c) && fat[c] == 0
      ensures f in old(chains) && f in chains && OnlyChain(old(chains), chains, f)
      ensures f in old(entries)
      ensures entries == if applied then old(entries)[f := CutEntry(old(nodes)[f], newSize)] else old(entries)
      ensures r == 0 ==> Spent(old(fat), old(chains)[f], fat, chains[f])
      ensures Framed(old(fat), fat, old(chains)[f])
    {
      hide Good, ViewOf, Counted, IsChain, Framed, Placed, Kept, Start, Keep, SameKinds, Broke, Spent, OnlyChain;
      hide Resized;
      applied := false;
      ghost var st := Now();
      EntryThere(st, f);
      SameChains(chains, f);
      FramedSelf(fat, chains[f]);
      KeepFits(st, f, newSize);
      var node, last, tail;
      r, node, last, tail := Announce(f, newSize);
      if r < 0 { return; }
      applied := true;
      r := CutFile(f, node, Keep(newSize, csize), last, tail, st);
    }

    /** The first steps of a truncation: where the tail begins, and the new entry on the disk. */
    method Announce(f: nat, newSize: nat) returns (r: int, node: Node, last: nat, tail: nat)
      requires Valid() && f in nodes && newSize < nodes[f].size
      modifies this`asked, this`nodes, this`entries
      ensures Base() && r <= 0 && (Broke() <==> old(Broke()) || r < 0)
      ensures nodes.Keys == old(nodes).Keys && SameKinds(old(nodes), nodes) && f in old(entries) && f in chains
      ensures f in old(View()) && newSize <= |old(View())[f]|
      ensures r < 0 ==> Good(Now()) && ViewOf(Now()) == old(View()) && entries == old(entries)
      ensures r == 0 ==> nodes == old(nodes)[f := node]
      ensures r == 0 ==> entries == old(entries)[f := CutEntry(old(nodes)[f], newSize)]
      ensures r == 0 ==> CutEntry(old(nodes)[f], newSize) == Entry(node.first, node.size)
      ensures Keep(newSize, csize) <= |chains[f]|
      ensures r == 0 ==> Placed(node, chains[f][..Keep(newSize, csize)]) && IsChain(fat, chains[f])
      ensures r == 0 ==> tail == FirstOf(chains[f][Keep(newSize, csize)..])
      ensures r == 0 ==> (Keep(newSize, csize) > 0 ==> last == chains[f][Keep(newSize, csize) - 1])
    {
      hide Good, ViewOf, Counted, IsChain, Placed, Kept, Start, Keep, SameKinds, Broke, Resized;
      ghost var st := Now();
      NodeKind(nodes, f, nodes[f]);
      ViewKeys(st);
      ContentsAt(st, f);
      EntryThere(st, f);
      KeepFits(st, f, newSize);
      var saved, keep := nodes[f], Keep(newSize, csize);
      node := saved;
      r, last, tail := FindTail(saved, keep, chains[f]);
      if r < 0 { return; }
      node := Resized(saved, newSize, keep);
      r := Record(f, node);
      NodeKind(st.nodes, f, nodes[f]);
      node := node.(dirty := false);
      if r < 0 { CursorReset(st, f, nodes[f]); }
    }

    /** The last step of a truncation, when the entry on the disk is already the new one. */
    method CutFile(f: nat, node: Node, keep: nat, last: nat, tail: nat, ghost st: State) returns (r: int)
      requires Good(st) && f in st.nodes && f in st.chains && Base() && Now() == st.(nodes := nodes, entries := entries)
      requires nodes == st.nodes[f := node] && entries == st.entries[f := Entry(node.first, node.size)]
      requires node.size <= st.nodes[f].size && keep <= |st.chains[f]| && node.size <= Start(keep, csize)
      requires Placed(node, st.chains[f][..keep]) && IsChain(fat, st.chains[f])
      requires tail == FirstOf(st.chains[f][keep..]) && (keep > 0 ==> last == st.chains[f][keep - 1])
      modifies this`asked, this`fat, this`freeCount, this`nextFree, this`chains
      ensures Valid() && r <= 0 && (Broke() <==> old(Broke()) || r < 0)
      ensures f in ViewOf(st) && node.size <= |ViewOf(st)[f]| && View() == ViewOf(st)[f := ViewOf(st)[f][..node.size]]
      ensures r == 0 ==> chains == st.chains[f := st.chains[f][..keep]] && Spent(st.fat, st.chains[f], fat, chains[f])
      ensures r == 0 ==> forall c :: c in st.chains[f][keep..] ==> InVolume(fat, c) && fat[c] == 0
      ensures f in chains && OnlyChain(st.chains, chains, f)
      ensures Framed(st.fat, fat, st.chains[f])
    {
      hide Good, ViewOf, Counted, IsChain, Framed, Placed, Start, Broke, Spent;
      ghost var t;
      r, t := CutTail(keep, last, tail, node, st.chains[f]);
      StartMono(keep, |t|, csize);
      ShrinkGood(st, f, node, t, fat);
      chains := chains[f := t];
      assert Now() == Shrunk(st, f, node, t, fat);
    }

    /** fat32_node_sync on a file in order: nobody can tell by reading, and on success the
        entry on the disk says first cluster and size as they are. */
    method SyncFile(f: nat) returns (r: int)
      requires Valid() && f in nodes
      modifies this`asked, this`nodes, this`entries
      ensures Valid() && View() == old(View()) && nodes.Keys == old(nodes).Keys && SameKinds(old(nodes), nodes)
      ensures r <= 0 && (Broke() <==> old(Broke()) || r < 0) && entries.Keys == old(entries).Keys
      ensures f in entries && (r == 0 ==> entries[f] == Entry(nodes[f].first, nodes[f].size))
      ensures entries == if r < 0 then old(entries) else old(entries)[f := entries[f]]
    {
      hide Good, ViewOf, Broke;
      EntryThere(Now(), f);
      ghost var st := Now();
      r := Sync(f);
      Synced(st, Now(), f, r);
    }

    /** The resized node and its entry on the disk; both as before if that fails,
        except that the cached place is forgotten. */
    method Record(f: nat, node: Node) returns (r: int)
      requires Base() && f in nodes && f in entries && node.dirty
      modifies this`asked, this`nodes, this`entries
      ensures Base() && r <= 0 && (Broke() <==> old(Broke()) || r < 0)
      ensures r < 0 ==> nodes == old(nodes)[f := old(nodes)[f].(at := 0, cluster := 0)] && entries == old(entries)
      ensures r == 0 ==> nodes == old(nodes)[f := node.(dirty := false)]
      ensures r == 0 ==> entries == old(entries)[f := Entry(node.first, node.size)]
    {
      hide Counted, Broke;
      var saved := nodes[f];
      nodes := nodes[f := node];
      r := Sync(f);
      if r < 0 { nodes := nodes[f := saved.(at := 0, cluster := 0)]; }
    }

    /** Where the tail starts, and the cluster before it if any is kept. */
    method FindTail(node: Node, keep: nat, ghost s: seq<nat>) returns (r: int, last: nat, tail: nat)
      requires Base() && IsChain(fat, s) && Placed(node, s) && keep <= |s|
      modifies this`asked
      ensures Base() && r <= 0 && (Broke() <==> old(Broke()) || r < 0)
      ensures r == 0 ==> tail == FirstOf(s[keep..]) && (keep > 0 ==> last == s[keep - 1])
    {
      hide IsChain, Counted, Broke;
      if keep > 0 {
        r, last, tail := FindEnd(node, keep, s);
      } else {
        assert s[0..] == s;
        return 0, 0, node.first;
      }
    }

    /** Ending the chain and freeing the tail. */
    method CutTail(keep: nat, last: nat, tail: nat, ghost n: Node, ghost s: seq<nat>)
      returns (r: int, ghost t: seq<nat>)
      requires Base() && IsChain(fat, s) && keep <= |s| && tail == FirstOf(s[keep..])
      requires (keep > 0 ==> last == s[keep - 1])
      requires Placed(n, s[..keep])
      modifies this`asked, this`fat, this`freeCount, this`nextFree
      ensures Base() && r <= 0 && (Broke() <==> old(Broke()) || r < 0)
      ensures keep <= |t| <= |s| && t == s[..|t|] && IsChain(fat, t) && Framed(old(fat), fat, s) && Placed(n, t)
      ensures r == 0 ==> Spent(old(fat), s, fat, t)
      ensures r == 0 ==> t == s[..keep] && forall c :: c in s[keep..] ==> InVolume(fat, c) && fat[c] == 0
    {
      hide Counted, IsChain, Framed, Placed, Freed, Broke, Spent;
      r := 0;
      if keep > 0 {
        CutFacts(fat, s, keep);
        StillCounted(fat, freeCount, last, EOC);
        r := FatSet(last, EOC);
        if r < 0 {
          FramedSelf(fat, s);
          PlacedLonger(n, s, keep);
          return r, s;
        }
      }
      CutChain(old(fat), s, keep, fat);
      ghost var cut, k := fat, 0;
      if tail != 0 {
        r, k := FreeChain(tail, s[keep..]);
      } else {
        FreedNone(cut, s[keep..]);
      }
      TailFreed(old(fat), s, keep, cut, k, fat);
      TailSpent(old(fat), s, keep, cut);
      t := s[..keep];
    }

    /** fat32_truncate: a prefix of the file, or the file and zeros. */
    method Truncate(f: nat, newSize: nat) returns (r: int, ghost size: nat)
      requires Valid() && f in nodes && newSize <= MAX_SIZE
      modifies this`asked, this`fat, this`data, this`freeCount, this`nextFree, this`nodes, this`entries, this`chains
      ensures Valid() && nodes.Keys == old(nodes).Keys && r <= 0 && (old(Broke()) ==> Broke())
      ensures r >= 0 ==> Broke() == old(Broke())
      ensures SameKinds(old(nodes), nodes)
      ensures View() == old(View())[f := Resize(old(View())[f], size)]
      ensures old(Check(f)) != 0 ==> r == old(Check(f)) && size == old(nodes)[f].size
      ensures if newSize <= old(nodes)[f].size then size == newSize || size == old(nodes)[f].size
        else old(nodes)[f].size <= size <= newSize
      ensures r == 0 ==> size == newSize
      ensures f in old(chains) && f in chains && OnlyChain(old(chains), chains, f)
      ensures old(Check(f)) == 0 && newSize == old(nodes)[f].size ==> r == 0
      ensures old(Check(f)) != 0 || newSize == old(nodes)[f].size ==> fat == old(fat) && chains == old(chains)
      ensures size >= old(nodes)[f].size ==> entries == old(entries)
      ensures size < old(nodes)[f].size ==>
        f in entries && entries[f].size == size && entries == old(entries)[f := entries[f]]
      ensures !Broke() && old(Check(f)) == 0 && newSize > old(nodes)[f].size ==>
        Landed(old(fat), old(chains)[f], fat, chains[f], csize, r, old(nodes)[f].size, size - old(nodes)[f].size,
               newSize - old(nodes)[f].size)
      ensures !Broke() && old(Check(f)) == 0 && newSize < old(nodes)[f].size ==>
        r == 0 && |chains[f]| == Keep(newSize, csize) && Spent(old(fat), old(chains)[f], fat, chains[f])
      ensures r < 0 && old(Check(f)) == 0 ==> Broke() || (r == ENOSPC && Full(fat) && newSize > old(nodes)[f].size)
    {
      hide Good, Base, ViewOf, Resize, Overwrite, Broke, SameKinds, Landed, Spent, Keep;
      NodeKind(nodes, f, nodes[f]);
      EntryThere(Now(), f);
      ViewKeys(Now());
      size := nodes[f].size;
      ResizeSame(View(), f);
      var check := Check(f);
      if check < 0 { return check, size; }
      if newSize == nodes[f].size { return 0, size; }
      if newSize > nodes[f].size {
        var done;
        ghost var reach;
        r, done, reach := Put(f, nodes[f].size, ZeroBytes(newSize - nodes[f].size), false);
        assert ZeroBytes(newSize - old(nodes)[f].size)[..done] == ZeroBytes(done);
        ResizeGrow(old(View()), View(), f, done);
        return r, size + done;
      }
      ghost var applied;
      r, applied := Shrink(f, newSize);
      ResizeShrink(old(View()), f, newSize);
      if applied { size := newSize; }
    }

    /** What refuses a cluster: a read-only volume, or one without a free cluster. */
    ghost predicate Denied(r: int)
      reads this
    {
      (r == EROFS && readonly) || (r == ENOSPC && Full(fat))
    }
  }

  ghost predicate AllKept(nodes: map<nat, Node>, entries: map<nat, Entry>, chains: Chains, csize: nat) {
    && nodes.Keys == entries.Keys == chains.Keys
    && forall f :: f in nodes ==> Kept(nodes[f], entries[f], chains[f], csize)
  }

  datatype State = State(fat: Table, data: Clusters, chains: Chains, nodes: map<nat, Node>, entries: map<nat, Entry>,
                         csize: nat)

  ghost predicate Good(st: State) {
    && Sized(st.fat) && |st.data| == |st.fat| && AllSized(st.data, st.csize) && st.csize > 0
    && AllChains(st.fat, st.chains) && AllKept(st.nodes, st.entries, st.chains, st.csize)
  }

  ghost function ContentsOf(st: State, f: nat): (b: seq<bv8>)
    requires Good(st) && f in st.nodes
    ensures |b| == st.nodes[f].size
  {
    FileAt(st.fat, st.data, st.chains, st.nodes, st.entries, st.csize, f);
    FlatSize(st.data, st.chains[f], st.csize);
    Flat(st.data, st.chains[f])[..st.nodes[f].size]
  }

  ghost function ViewOf(st: State): map<nat, seq<bv8>>
    requires Good(st)
  {
    map f | f in st.nodes :: ContentsOf(st, f)
  }

  /** A range of a file was written and its size follows: the file is overwritten
      and all others read the same. */
  lemma TouchView(st: State, mid: State, f: nat, offset: nat, bytes: seq<bv8>, reach: nat, n: Node)
    requires Good(st) && Good(mid) && mid.entries == st.entries && mid.csize == st.csize
    requires OnlyFile(st.nodes, mid.nodes, f)
    requires Rewritten(st.data, st.chains, mid.data, mid.chains, f, offset, bytes)
    requires offset <= st.nodes[f].size == mid.nodes[f].size && offset + |bytes| <= MAX_SIZE
    requires n == mid.nodes[f].(size := n.size, dirty := n.dirty) && Marked(mid.nodes[f], n)
    requires n.size == (if offset + reach > st.nodes[f].size then offset + reach else st.nodes[f].size)
    requires reach <= |bytes| && (reach == |bytes| || offset + reach == n.size)
    ensures Good(mid.(nodes := mid.nodes[f := n]))
    ensures ViewOf(mid.(nodes := mid.nodes[f := n]))
      == ViewOf(st)[f := Overwrite(ViewOf(st)[f], offset, bytes[..reach])]
  {
    hide Good, ContentsOf, Rewritten, OnlyFile, Overwrite;
    var now := mid.(nodes := mid.nodes[f := n]);
    TouchFile(st, mid, f, offset, bytes, reach, n);
    NodesKept(st.nodes, mid.nodes, f);
    forall g | g in st.nodes && g != f ensures g in now.nodes && ContentsOf(now, g) == ContentsOf(st, g) {
      TouchOther(st, mid, f, offset, bytes, n, g);
    }
  }

  /** No file becomes a directory or changes its protection. */
  ghost predicate SameKinds(nodes: map<nat, Node>, now: map<nat, Node>) {
    forall g :: g in nodes && g in now ==> SameKind(nodes[g], now[g])
  }

  ghost predicate SameKind(a: Node, b: Node) {
    b.isDir == a.isDir && b.readOnly == a.readOnly
  }

  /** A file after zeros were appended and then bytes written. */
  ghost function AfterWrite(b: seq<bv8>, offset: nat, hole: nat, bytes: seq<bv8>): seq<bv8> {
    if bytes == [] || offset > |b| + hole then b + ZeroBytes(hole) else Overwrite(b + ZeroBytes(hole), offset, bytes)
  }

  /** A file cut down, or extended by zeros, to a size. */
  ghost function Resize(b: seq<bv8>, size: nat): seq<bv8> {
    if size <= |b| then b[..size] else b + ZeroBytes(size - |b|)
  }

  lemma ResizeSame(v: map<nat, seq<bv8>>, f: nat)
    requires f in v
    ensures v == v[f := Resize(v[f], |v[f]|)]
  {
    assert v[f][..|v[f]|] == v[f];
  }

  lemma ResizeGrow(v: map<nat, seq<bv8>>, w: map<nat, seq<bv8>>, f: nat, done: nat)
    requires f in v && w == v[f := Overwrite(v[f], |v[f]|, ZeroBytes(done))]
    ensures w == v[f := Resize(v[f], |v[f]| + done)]
  {
    assert Overwrite(v[f], |v[f]|, ZeroBytes(done)) == Resize(v[f], |v[f]| + done);
  }

  lemma ResizeShrink(v: map<nat, seq<bv8>>, f: nat, size: nat)
    requires f in v && size <= |v[f]|
    ensures v[f := v[f][..size]] == v[f := Resize(v[f], size)]
  {
  }

  lemma NothingWritten(v: map<nat, seq<bv8>>, f: nat, offset: nat)
    requires f in v
    ensures v == v[f := AfterWrite(v[f], offset, 0, [])] && v[f] + ZeroBytes(0) == v[f]
  {
    assert v[f] + ZeroBytes(0) == v[f];
  }

  lemma HoleFilled(v: map<nat, seq<bv8>>, w: map<nat, seq<bv8>>, f: nat, size: nat, hole: nat, offset: nat)
    requires f in v && |v[f]| == size && w == v[f := Overwrite(v[f], size, ZeroBytes(hole))]
    ensures w == v[f := AfterWrite(v[f], offset, hole, [])] && w[f] == v[f] + ZeroBytes(hole)
  {
    assert Overwrite(v[f], size, ZeroBytes(hole)) == v[f] + ZeroBytes(hole);
  }

  lemma BothWritten(v: map<nat, seq<bv8>>, mid: map<nat, seq<bv8>>, w: map<nat, seq<bv8>>, f: nat, offset: nat,
                    hole: nat, bytes: seq<bv8>)
    requires f in v && mid == v[f := v[f] + ZeroBytes(hole)] && offset <= |v[f]| + hole
    requires w == mid[f := Overwrite(mid[f], offset, bytes)]
    ensures w == v[f := AfterWrite(v[f], offset, hole, bytes)]
  {
    if bytes == [] { assert Overwrite(mid[f], offset, bytes) == mid[f]; }
  }

  lemma ViewKeys(st: State)
    requires Good(st)
    ensures ViewOf(st).Keys == st.nodes.Keys && forall f :: f in st.nodes ==> |ViewOf(st)[f]| == st.nodes[f].size
  {
    hide Good, ContentsOf;
  }

  function Least(count: nat, offset: nat, size: nat): nat {
    if offset >= size then 0
    else if count > MAX_COUNT && size - offset > MAX_COUNT then MAX_COUNT
    else if count > size - offset then size - offset else count
  }

  /** How many clusters a size needs. */
  function Keep(size: nat, csize: nat): nat
    requires csize > 0
  {
    size / csize + if size % csize != 0 then 1 else 0
  }

  lemma KeepFits(st: State, f: nat, newSize: nat)
    requires Good(st) && f in st.nodes && newSize < st.nodes[f].size
    ensures f in st.entries && f in st.chains && Keep(newSize, st.csize) <= |st.chains[f]|
    ensures newSize <= Start(Keep(newSize, st.csize), st.csize) && (Keep(newSize, st.csize) == 0 <==> newSize == 0)
    ensures Placed(Resized(st.nodes[f], newSize, Keep(newSize, st.csize)).(dirty := false),
                   st.chains[f][..Keep(newSize, st.csize)])
    ensures var n := Resized(st.nodes[f], newSize, Keep(newSize, st.csize));
            && n.dirty && n.size == newSize && n.first == (if newSize == 0 then 0 else st.nodes[f].first)
            && SameKind(st.nodes[f], n)
  {
    FileAt(st.fat, st.data, st.chains, st.nodes, st.entries, st.csize, f);
    Position(newSize, st.csize);
    Reaches(st.chains[f], st.csize, newSize / st.csize, newSize);
  }

  lemma EntryThere(st: State, f: nat)
    requires Good(st) && f in st.nodes
    ensures f in st.entries && f in st.chains && st.entries.Keys == st.chains.Keys == st.nodes.Keys && |st.fat| >= 2
  {
  }

  lemma Synced(st: State, now: State, f: nat, r: int)
    requires Good(st) && f in st.nodes && f in st.entries && now == st.(nodes := now.nodes, entries := now.entries)
    requires now.nodes == st.nodes[f := st.nodes[f].(dirty := r < 0)] && (r < 0 ==> st.nodes[f].dirty)
    requires now.entries == if r == 0 && st.nodes[f].dirty
                            then st.entries[f := Entry(st.nodes[f].first, st.nodes[f].size)] else st.entries
    requires r <= 0
    ensures Good(now) && ViewOf(now) == ViewOf(st)
    ensures (r == 0 ==> now.entries[f] == Entry(now.nodes[f].first, now.nodes[f].size))
  {
    hide AllChains, Flat, AllSized, ContentsOf;
    assert Kept(st.nodes[f], st.entries[f], st.chains[f], st.csize);
    assert Good(now);
    forall g | g in st.nodes ensures ContentsOf(now, g) == ContentsOf(st, g) { SameContents(st, now, g); }
  }

  lemma SameContents(st: State, now: State, g: nat)
    requires Good(st) && Good(now) && now.data == st.data && now.chains == st.chains && g in st.nodes && g in now.nodes
    requires now.nodes[g].size == st.nodes[g].size
    ensures ContentsOf(now, g) == ContentsOf(st, g)
  {
    hide Good;
  }

  lemma CursorReset(st: State, f: nat, n: Node)
    requires Good(st) && f in st.nodes && n == st.nodes[f].(at := 0, cluster := 0)
    ensures Good(st.(nodes := st.nodes[f := n])) && ViewOf(st.(nodes := st.nodes[f := n])) == ViewOf(st)
  {
    FileAt(st.fat, st.data, st.chains, st.nodes, st.entries, st.csize, f);
    CursorMoved(st, f, n);
  }

  /** The entry of a file cut down: without bytes it has no first cluster. */
  function CutEntry(n: Node, newSize: nat): Entry { Entry(if newSize == 0 then 0 else n.first, newSize) }

  function Resized(n: Node, newSize: nat, keep: nat): Node {
    var m := n.(size := newSize, first := if keep > 0 then n.first else 0, dirty := true);
    if n.at >= keep then m.(at := 0, cluster := 0) else m
  }

  lemma StartMono(i: nat, n: nat, csize: nat)
    requires i <= n
    ensures Start(i, csize) <= Start(n, csize)
  {
    if i < n { StartGrows(i, n, csize); }
  }

  lemma CutFacts(fat: Table, s: seq<nat>, keep: nat)
    requires IsChain(fat, s) && Sized(fat) && 0 < keep <= |s|
    ensures InVolume(fat, s[keep - 1]) && fat[s[keep - 1]] != 0 && s[..|s|] == s
  {
    ChainAt(fat, s, keep - 1);
  }

  lemma PlacedLonger(n: Node, s: seq<nat>, keep: nat)
    requires 0 < keep <= |s| && Placed(n, s[..keep])
    ensures Placed(n, s)
  {
  }

  /** The two chains after the cut. */
  lemma CutChain(fat: Table, s: seq<nat>, keep: nat, cut: Table)
    requires IsChain(fat, s) && Sized(fat) && keep <= |s|
    requires keep == 0 ==> cut == fat
    requires keep > 0 ==> InVolume(fat, s[keep - 1]) && cut == fat[s[keep - 1] := EOC]
    ensures IsChain(cut, s[..keep]) && IsChain(cut, s[keep..]) && Framed(fat, cut, s)
    ensures forall i :: 0 <= i < |s[keep..]| ==> InVolume(cut, s[keep..][i])
    ensures FirstOf(s[keep..]) == 0 <==> keep == |s|
  {
    if keep > 0 { ChainCut(fat, s, keep); } else { assert s[0..] == s; }
    forall i | 0 <= i < |s[keep..]| ensures InVolume(cut, s[keep..][i]) { ChainAt(cut, s[keep..], i); }
  }

  /** What was kept is still a chain after part of the tail was freed. */
  lemma TailFreed(fat: Table, s: seq<nat>, keep: nat, cut: Table, n: nat, now: Table)
    requires keep <= |s| && IsChain(fat, s) && IsChain(cut, s[..keep]) && Framed(fat, cut, s)
    requires forall i :: 0 <= i < |s[keep..]| ==> InVolume(cut, s[keep..][i])
    requires n <= |s| - keep && now == Freed(cut, s[keep..], n)
    ensures IsChain(now, s[..keep]) && Framed(fat, now, s)
    ensures n == |s| - keep ==> forall c :: c in s[keep..] ==> InVolume(now, c) && now[c] == 0
  {
    var tail := s[keep..];
    forall c | 0 <= c < |cut| ensures now[c] == if c in tail[..n] then 0 else cut[c] { FreedAt(cut, tail, n, c); }
    forall c | c in s[..keep] && c < |cut| ensures now[c] == cut[c] {
      var i :| 0 <= i < keep && s[i] == c;
      forall j | 0 <= j < n ensures tail[j] != c { assert tail[j] == s[keep + j]; }
    }
    ChainKept(cut, now, s[..keep]);
    forall c | InVolume(fat, c) && fat[c] != 0 && c !in s ensures now[c] == fat[c] {
      forall j | 0 <= j < n ensures tail[j] != c { assert tail[j] == s[keep + j]; }
    }
    if n == |tail| { assert tail[..n] == tail; }
  }

  ghost function Shrunk(st: State, f: nat, n: Node, t: seq<nat>, now: Table): State {
    State(now, st.data, st.chains[f := t], st.nodes[f := n], st.entries[f := Entry(n.first, n.size)], st.csize)
  }

  /** A file cut down to a prefix of its chain. */
  lemma ShrinkGood(st: State, f: nat, n: Node, t: seq<nat>, now: Table)
    requires Good(st) && f in st.nodes && f in st.chains && n.size <= st.nodes[f].size && n.size <= Start(|t|, st.csize)
    requires Placed(n, t) && |t| <= |st.chains[f]| && t == st.chains[f][..|t|]
    requires IsChain(now, t) && Framed(st.fat, now, st.chains[f])
    ensures Good(Shrunk(st, f, n, t, now)) && f in ViewOf(st) && n.size <= |ViewOf(st)[f]|
    ensures ViewOf(Shrunk(st, f, n, t, now)) == ViewOf(st)[f := ViewOf(st)[f][..n.size]]
  {
    hide Good, ContentsOf;
    var after := Shrunk(st, f, n, t, now);
    ShrinkSound(st, f, n, t, now);
    ShrinkFile(st, f, n, t, now);
    forall g | g in st.nodes && g != f
      ensures ContentsOf(after, g) == ContentsOf(st, g)
    {
      ShrinkOther(st, f, n, t, now, g);
    }
  }

  lemma ShrinkSound(st: State, f: nat, n: Node, t: seq<nat>, now: Table)
    requires Good(st) && f in st.nodes && f in st.chains && n.size <= st.nodes[f].size && n.size <= Start(|t|, st.csize)
    requires Placed(n, t) && |t| <= |st.chains[f]| && t == st.chains[f][..|t|]
    requires IsChain(now, t) && Framed(st.fat, now, st.chains[f])
    ensures Good(Shrunk(st, f, n, t, now))
  {
    hide IsChain, AllSized;
    forall c | c in t ensures c in st.chains[f] { assert t == st.chains[f][..|t|]; }
    StillApart(st.fat, now, st.chains, f, t);
    hide AllChains;
    assert Kept(st.nodes[f], st.entries[f], st.chains[f], st.csize);
  }

  lemma ShrinkFile(st: State, f: nat, n: Node, t: seq<nat>, now: Table)
    requires Good(st) && f in st.nodes && f in st.chains && n.size <= st.nodes[f].size && n.size <= Start(|t|, st.csize)
    requires |t| <= |st.chains[f]| && t == st.chains[f][..|t|] && Good(Shrunk(st, f, n, t, now))
    ensures ContentsOf(Shrunk(st, f, n, t, now), f) == ContentsOf(st, f)[..n.size]
  {
    hide AllChains, Flat, AllSized, IsChain;
    FileAt(st.fat, st.data, st.chains, st.nodes, st.entries, st.csize, f);
    FlatPrefix(st.data, st.chains[f], st.csize, |t|);
    FlatSize(st.data, st.chains[f], st.csize);
  }

  lemma ShrinkOther(st: State, f: nat, n: Node, t: seq<nat>, now: Table, g: nat)
    requires Good(st) && f in st.nodes && Good(Shrunk(st, f, n, t, now)) && g in st.nodes && g != f
    ensures ContentsOf(Shrunk(st, f, n, t, now), g) == ContentsOf(st, g)
  {
    hide AllChains, Flat, AllSized, IsChain;
  }

  lemma FramedSelf(fat: Table, s: seq<nat>)
    ensures Framed(fat, fat, s)
  {
  }

  /** Bytes taken from a sequence, from a position on. */
  ghost predicate Taken(out: seq<bv8>, b: seq<bv8>, offset: nat) {
    offset + |out| <= |b| && out == b[offset..offset + |out|]
  }

  lemma TakenNone(b: seq<bv8>, offset: nat)
    requires offset <= |b|
    ensures Taken([], b, offset)
  {
  }

  lemma TakenMore(out: seq<bv8>, piece: seq<bv8>, b: seq<bv8>, offset: nat)
    requires Taken(out, b, offset) && Taken(piece, b, offset + |out|)
    ensures Taken(out + piece, b, offset)
  {
    assert b[offset..offset + |out|] + b[offset + |out|..offset + |out| + |piece|]
      == b[offset..offset + |out| + |piece|];
  }

  lemma TakenFirst(out: seq<bv8>, b: seq<bv8>, offset: nat, size: nat)
    requires Taken(out, b, offset) && offset + |out| <= size <= |b|
    ensures out == b[..size][offset..offset + |out|]
  {
  }

  /** A position inside the bytes of a chain lies in one of its clusters. */
  lemma Reaches(s: seq<nat>, csize: nat, i: nat, pos: nat)
    requires Start(i, csize) <= pos < Start(|s|, csize)
    ensures i < |s|
  {
    if i > |s| { StartGrows(|s|, i, csize); }
  }

  lemma ContentsAt(st: State, f: nat)
    requires Good(st) && f in st.nodes
    ensures f in st.chains && IsChain(st.fat, st.chains[f]) && Inside(st.data, st.chains[f])
    ensures Placed(st.nodes[f], st.chains[f])
    ensures f in ViewOf(st) && st.nodes[f].size <= |Flat(st.data, st.chains[f])|
    ensures ViewOf(st)[f] == Flat(st.data, st.chains[f])[..st.nodes[f].size]
  {
    FileAt(st.fat, st.data, st.chains, st.nodes, st.entries, st.csize, f);
    FlatSize(st.data, st.chains[f], st.csize);
  }

  /** Moving the cached place changes nothing a reader sees. */
  lemma CursorMoved(st: State, f: nat, n: Node)
    requires Good(st) && f in st.nodes && f in st.chains && Placed(n, st.chains[f])
    requires n == st.nodes[f].(at := n.at, cluster := n.cluster, dirty := n.dirty) && (st.nodes[f].dirty ==> n.dirty)
    ensures Good(st.(nodes := st.nodes[f := n])) && ViewOf(st.(nodes := st.nodes[f := n])) == ViewOf(st)
  {
    hide AllChains, Flat;
    var now := st.(nodes := st.nodes[f := n]);
    assert Kept(st.nodes[f], st.entries[f], st.chains[f], st.csize);
    forall g | g in st.nodes ensures ContentsOf(now, g) == ContentsOf(st, g) {}
  }

  lemma OneKind(nodes: map<nat, Node>, now: map<nat, Node>, f: nat, n: Node)
    requires OnlyFile(nodes, now, f) && SameKind(nodes[f], n)
    ensures SameKinds(nodes, now[f := n])
  {
  }

  lemma KindsThen(a: map<nat, Node>, b: map<nat, Node>, c: map<nat, Node>)
    requires a.Keys == b.Keys == c.Keys && SameKinds(a, b) && SameKinds(b, c)
    ensures SameKinds(a, c)
  {
    forall g | g in a && g in c ensures SameKind(a[g], c[g]) { assert g in b; }
  }

  lemma NodeKind(nodes: map<nat, Node>, f: nat, n: Node)
    requires f in nodes && SameKind(nodes[f], n)
    ensures SameKinds(nodes, nodes) && SameKinds(nodes, nodes[f := n])
  {
  }

  lemma NodesKept(nodes: map<nat, Node>, now: map<nat, Node>, f: nat)
    requires OnlyFile(nodes, now, f)
    ensures f in nodes && now.Keys == nodes.Keys
  {
  }

  lemma TouchFile(st: State, mid: State, f: nat, offset: nat, bytes: seq<bv8>, reach: nat, n: Node)
    requires Good(st) && Good(mid) && mid.entries == st.entries && mid.csize == st.csize
    requires OnlyFile(st.nodes, mid.nodes, f)
    requires Rewritten(st.data, st.chains, mid.data, mid.chains, f, offset, bytes)
    requires offset <= st.nodes[f].size == mid.nodes[f].size && offset + |bytes| <= MAX_SIZE
    requires n == mid.nodes[f].(size := n.size, dirty := n.dirty) && Marked(mid.nodes[f], n)
    requires n.size == (if offset + reach > st.nodes[f].size then offset + reach else st.nodes[f].size)
    requires reach <= |bytes| && (reach == |bytes| || offset + reach == n.size)
    ensures Good(mid.(nodes := mid.nodes[f := n]))
    ensures ContentsOf(mid.(nodes := mid.nodes[f := n]), f) == Overwrite(ContentsOf(st, f), offset, bytes[..reach])
  {
    hide AllChains, Flat, Written, IsChain, Overwrite, AllSized, Elsewhere;
    FileAt(st.fat, st.data, st.chains, st.nodes, st.entries, st.csize, f);
    FileAt(mid.fat, mid.data, mid.chains, mid.nodes, mid.entries, mid.csize, f);
    FlatSize(st.data, st.chains[f], st.csize);
    FlatSize(mid.data, mid.chains[f], st.csize);
    Cropped(Flat(st.data, st.chains[f]), Flat(mid.data, mid.chains[f]), st.nodes[f].size, offset, bytes, reach);
  }

  lemma TouchOther(st: State, mid: State, f: nat, offset: nat, bytes: seq<bv8>, n: Node, g: nat)
    requires Good(st) && Good(mid) && OnlyFile(st.nodes, mid.nodes, f) &&
      Rewritten(st.data, st.chains, mid.data, mid.chains, f, offset, bytes)
    requires Good(mid.(nodes := mid.nodes[f := n])) && g in st.nodes && g != f
    ensures g in mid.nodes && ContentsOf(mid.(nodes := mid.nodes[f := n]), g) == ContentsOf(st, g)
  {
    hide AllChains, Flat, Written, IsChain, AllSized;
    assert g in mid.nodes && mid.nodes[g] == st.nodes[g];
    FileAt(st.fat, st.data, st.chains, st.nodes, st.entries, st.csize, g);
  }

  lemma FileAt(fat: Table, data: Clusters, chains: Chains, nodes: map<nat, Node>, entries: map<nat, Entry>, csize: nat,
               f: nat)
    requires Sized(fat) && |data| == |fat| && AllChains(fat, chains) && AllKept(nodes, entries, chains, csize)
    requires f in nodes
    ensures f in chains && f in entries && IsChain(fat, chains[f]) && Kept(nodes[f], entries[f], chains[f], csize)
    ensures Inside(data, chains[f])
  {
    ChainInside(fat, data, chains[f]);
  }

  /** Growing a chain keeps its bytes in front. */
  lemma Longer(fat: Table, data: Clusters, s: seq<nat>, now: Table, nowData: Clusters, t: seq<nat>, csize: nat,
               offset: nat)
    requires Sprouted(fat, data, s, now, nowData, t) && DataKept(fat, data, nowData, []) && IsChain(fat, s)
    requires Sized(fat) && Sized(now) && |data| == |fat| && |nowData| == |now| && AllSized(nowData, csize)
    ensures Inside(data, s) && Inside(nowData, t)
    ensures |Flat(data, s)| <= |Flat(nowData, t)| && Flat(nowData, t)[..|Flat(data, s)|] == Flat(data, s)
    ensures Written(Flat(data, s), Flat(nowData, t), offset, [])
  {
    ChainInside(fat, data, s);
    ChainInside(now, nowData, t);
    forall c | c in s && c < |data| ensures nowData[c] == data[c] { Occupied(fat, s, c); }
    FlatSame(data, nowData, s);
    FlatPrefix(nowData, t, csize, |s|);
    assert t[..|s|] == s;
    FlatSize(nowData, s, csize);
    WrittenLate(Flat(data, s), Flat(nowData, t), Flat(nowData, t), offset, []);
  }

  lemma Finish(f0: Table, d0: Clusters, s: seq<nat>, f1: Table, d1: Clusters, t: seq<nat>, f2: Table, d2: Clusters,
               u: seq<nat>, n: Node, offset: nat, bytes: seq<bv8>)
    requires Sprouted(f0, d0, s, f1, d1, t) && Progress(f1, d1, t, f2, d2, u, offset, bytes) && Sized(f1)
    requires Inside(d0, s)
    requires |Flat(d0, s)| <= |Flat(d1, t)| && Flat(d1, t)[..|Flat(d0, s)|] == Flat(d0, s)
    requires n.first == FirstOf(t) && t != [] && n.at < |u| && n.cluster == u[n.at]
    ensures Sprouted(f0, d0, s, f2, d2, u) && Inside(d2, u) && Written(Flat(d0, s), Flat(d2, u), offset, bytes)
    ensures Placed(n, u)
  {
    SproutTrans(f0, d0, s, f1, d1, t, f2, d2, u);
    WrittenLate(Flat(d0, s), Flat(d1, t), Flat(d2, u), offset, bytes);
    assert u[..|t|] == t;
  }

  /** An operation on the chain of one file, seen by the whole volume. */
  lemma FileStep(fat: Table, data: Clusters, chains: Chains, nodes: map<nat, Node>, entries: map<nat, Entry>,
                 csize: nat,
                 f: nat, now: Table, nowData: Clusters, t: seq<nat>, n: Node)
    requires Sized(fat) && |data| == |fat| && AllChains(fat, chains) && AllKept(nodes, entries, chains, csize)
    requires f in nodes
    requires f in chains && Sprouted(fat, data, chains[f], now, nowData, t) && Placed(n, t) && n.size == nodes[f].size
    requires Marked(nodes[f], n)
    ensures AllChains(now, chains[f := t]) && AllKept(nodes[f := n], entries, chains[f := t], csize)
    ensures Elsewhere(data, chains, nowData, chains[f := t], f)
  {
    hide AllChains, Sprouted, Framed, IsChain, Extended, DataKept, Kept, Flat;
    FileChain(fat, data, chains[f], now, nowData, t);
    StillApart(fat, now, chains, f, t);
    OthersKept(fat, data, chains, nowData, f);
    FileKept(nodes[f], entries[f], chains[f], fat, t, n, csize);
  }

  lemma FileKept(old_: Node, e: Entry, s: seq<nat>, fat: Table, t: seq<nat>, n: Node, csize: nat)
    requires Kept(old_, e, s, csize) && Extended(fat, s, t) && Placed(n, t) && n.size == old_.size && Marked(old_, n)
    ensures Kept(n, e, t, csize)
  {
    if |s| < |t| { StartGrows(|s|, |t|, csize); }
    assert s != [] ==> t[0] == s[0];
  }

  lemma FileChain(fat: Table, data: Clusters, s: seq<nat>, now: Table, nowData: Clusters, t: seq<nat>)
    requires Sprouted(fat, data, s, now, nowData, t)
    ensures Framed(fat, now, s) && IsChain(now, t) && Extended(fat, s, t) && DataKept(fat, data, nowData, s)
    ensures forall c :: c in t ==> c in s || (InVolume(fat, c) && fat[c] == 0)
  {
    forall c | c in t ensures c in s || (InVolume(fat, c) && fat[c] == 0) {
      var i :| 0 <= i < |t| && t[i] == c;
      assert i < |s| ==> t[i] == s[i];
    }
  }

  lemma OthersKept(fat: Table, data: Clusters, chains: Chains, now: Clusters, f: nat)
    requires Sized(fat) && |data| == |fat| && AllChains(fat, chains) && f in chains
    requires DataKept(fat, data, now, chains[f])
    ensures forall g :: g in chains && g != f ==>
      Inside(data, chains[g]) && Inside(now, chains[g]) && Flat(now, chains[g]) == Flat(data, chains[g])
  {
    forall g | g in chains && g != f
      ensures Inside(data, chains[g]) && Inside(now, chains[g]) && Flat(now, chains[g]) == Flat(data, chains[g])
    {
      ChainInside(fat, data, chains[g]);
      forall c | c in chains[g] && c < |data| ensures now[c] == data[c] { Occupied(fat, chains[g], c); }
      FlatSame(data, now, chains[g]);
    }
  }

  /** One byte range of one file was written; every other file has its old bytes. */
  ghost predicate Rewritten(data: Clusters, chains: Chains, now: Clusters, after: Chains, f: nat, offset: nat,
                            bytes: seq<bv8>)
  {
    && f in chains && f in after && Inside(data, chains[f]) && Inside(now, after[f])
    && Written(Flat(data, chains[f]), Flat(now, after[f]), offset, bytes)
    && Elsewhere(data, chains, now, after, f)
  }

  ghost predicate OnlyFile(nodes: map<nat, Node>, now: map<nat, Node>, f: nat) {
    f in nodes && now.Keys == nodes.Keys && forall g :: g in nodes && g != f ==> now[g] == nodes[g]
  }

  /** The chains of all other files are the same and hold the same bytes. */
  ghost predicate Elsewhere(data: Clusters, chains: Chains, now: Clusters, after: Chains, f: nat) {
    && after.Keys == chains.Keys
    && forall g :: g in chains && g != f ==>
         && after[g] == chains[g] && Inside(data, chains[g]) && Inside(now, chains[g])
         && Flat(now, chains[g]) == Flat(data, chains[g])
  }

  ghost function LastOf(s: seq<nat>): nat { if s == [] then 0 else s[|s| - 1] }

  /** The contents of clusters in use outside the chain stay as they are. */
  ghost predicate DataKept(fat: Table, data: Clusters, now: Clusters, s: seq<nat>) {
    |now| == |data| && forall c :: InVolume(fat, c) && fat[c] != 0 && c !in s && c < |data| ==> now[c] == data[c]
  }

  /** An operation on one chain: it is still a chain, it gained free clusters at
      most, and the rest of the volume did not notice. */
  ghost predicate Sprouted(fat: Table, data: Clusters, s: seq<nat>, now: Table, nowData: Clusters, t: seq<nat>) {
    Framed(fat, now, s) && Extended(fat, s, t) && IsChain(now, t) && DataKept(fat, data, nowData, s)
  }

  lemma NoGrowth(fat: Table, data: Clusters, s: seq<nat>)
    requires IsChain(fat, s)
    ensures Sprouted(fat, data, s, fat, data, s) && DataKept(fat, data, data, [])
  {
  }

  lemma SproutChain(fat: Table, data: Clusters, s: seq<nat>, now: Table, nowData: Clusters, t: seq<nat>)
    requires Sprouted(fat, data, s, now, nowData, t)
    ensures IsChain(now, t) && Extended(fat, s, t)
  {
  }

  lemma SproutWrite(fat: Table, data: Clusters, s: seq<nat>, now: Table, d1: Clusters, t: seq<nat>, at: nat,
                    d2: Clusters)
    requires Sprouted(fat, data, s, now, d1, t) && at < |t| && OnlyAt(d1, d2, t[at])
    ensures Sprouted(fat, data, s, now, d2, t)
  {
    assert at < |s| ==> s[at] == t[at];
  }

  lemma ChainInside(fat: Table, data: Clusters, s: seq<nat>)
    requires IsChain(fat, s) && Sized(fat) && |data| == |fat|
    ensures Inside(data, s) && Apart(s)
  {
    forall i | 0 <= i < |s| ensures s[i] < |data| { ChainAt(fat, s, i); }
  }

  /** So many bytes of a write are in the chain. */
  ghost predicate Progress(fat: Table, data: Clusters, s: seq<nat>, now: Table, nowData: Clusters, t: seq<nat>,
                           offset: nat,
                           bytes: seq<bv8>) {
    && Sprouted(fat, data, s, now, nowData, t) && Inside(data, s) && Inside(nowData, t)
    && Written(Flat(data, s), Flat(nowData, t), offset, bytes)
  }

  lemma StartWrite(fat: Table, data: Clusters, s: seq<nat>, csize: nat, at: nat, offset: nat)
    requires IsChain(fat, s) && Sized(fat) && |data| == |fat| && AllSized(data, csize) && at < |s|
    requires Start(at, csize) <= offset < Start(at, csize) + csize
    ensures Progress(fat, data, s, fat, data, s, offset, [])
  {
    NoGrowth(fat, data, s);
    ChainInside(fat, data, s);
    FlatSize(data, s, csize);
    StartGrows(at, |s|, csize);
  }

  lemma PutMore(fat: Table, data: Clusters, s: seq<nat>, now: Table, d1: Clusters, d2: Clusters, t: seq<nat>, at: nat,
                offset: nat, src: seq<bv8>, done: nat, chunk: nat)
    requires done + chunk <= |src| && Progress(fat, data, s, now, d1, t, offset, src[..done])
    requires at < |t| && OnlyAt(d1, d2, t[at]) && Inside(d2, t) && offset + done + chunk <= |Flat(d1, t)|
    requires Flat(d2, t) == Splice(Flat(d1, t), offset + done, src[done..][..chunk])
    ensures Progress(fat, data, s, now, d2, t, offset, src[..done + chunk])
  {
    hide Sprouted, Written, Flat, Splice;
    SproutWrite(fat, data, s, now, d1, t, at, d2);
    assert src[..done] + src[done..][..chunk] == src[..done + chunk];
    WrittenMore(Flat(data, s), Flat(d1, t), Flat(d2, t), offset, src[..done], src[done..][..chunk]);
  }

  /** A grown chain holds the old bytes first. */
  lemma GrownWrite(fat: Table, data: Clusters, s: seq<nat>, f1: Table, d1: Clusters, t: seq<nat>, f2: Table,
                   d2: Clusters,
                   u: seq<nat>, offset: nat, bytes: seq<bv8>)
    requires Progress(fat, data, s, f1, d1, t, offset, bytes) && Sized(f1) && |d1| == |f1|
    requires Sprouted(f1, d1, t, f2, d2, u) && DataKept(f1, d1, d2, []) && (u == t || (|u| == |t| + 1 && u[..|t|] == t))
    requires |d2| == |f2|
    ensures Progress(fat, data, s, f2, d2, u, offset, bytes)
  {
    SproutTrans(fat, data, s, f1, d1, t, f2, d2, u);
    ChainInside(f2, d2, u);
    forall c | c in t && c < |d1| ensures d2[c] == d1[c] { Occupied(f1, t, c); }
    FlatSame(d1, d2, t);
    if u != t {
      assert u == t + [u[|t|]];
      FlatAppend(d2, t, u[|t|]);
      WrittenGrow(Flat(data, s), Flat(d2, t), offset, bytes, d2[u[|t|]]);
    }
  }

  /** From a place on a chain holds nothing but zeros and one range, where bytes are or are about to be put. */
  ghost predicate Blank(data: Clusters, t: seq<nat>, from: nat, at: nat, n: nat) {
    Inside(data, t) && forall i :: from <= i < |Flat(data, t)| && !(at <= i < at + n) ==> Flat(data, t)[i] == 0
  }

  lemma BlankNone(data: Clusters, s: seq<nat>, csize: nat, at: nat, n: nat)
    requires Inside(data, s) && AllSized(data, csize)
    ensures Blank(data, s, Start(|s|, csize), at, n)
  {
    FlatSize(data, s, csize);
  }

  lemma BlankMore(data: Clusters, t: seq<nat>, from: nat, at: nat, n: nat, b: nat, m: nat)
    requires Blank(data, t, from, at, n) && (n == 0 || (b <= at && at + n <= b + m))
    ensures Blank(data, t, from, b, m)
  {
  }

  lemma BlankWrite(d1: Clusters, d2: Clusters, t: seq<nat>, from: nat, at: nat, n: nat, pos: nat, bytes: seq<bv8>)
    requires Blank(d1, t, from, at, n) && Inside(d2, t) && pos + |bytes| <= |Flat(d1, t)|
    requires at <= pos && pos + |bytes| <= at + n && Flat(d2, t) == Splice(Flat(d1, t), pos, bytes)
    ensures Blank(d2, t, from, at, n)
  {
    hide Flat;
  }

  lemma BlankSame(fat: Table, d1: Clusters, d2: Clusters, t: seq<nat>, from: nat, at: nat, n: nat)
    requires Blank(d1, t, from, at, n) && IsChain(fat, t) && Sized(fat) && |d1| == |fat|
    requires DataKept(fat, d1, d2, [])
    ensures Blank(d2, t, from, at, n)
  {
    forall c | c in t && c < |d1| ensures d2[c] == d1[c] { Occupied(fat, t, c); }
    FlatSame(d1, d2, t);
  }

  /** A new cluster that is zero, or lies in the range, changes nothing about that. */
  lemma BlankGrown(data: Clusters, t: seq<nat>, c: nat, csize: nat, from: nat, at: nat, n: nat)
    requires Blank(data, t, from, at, n) && AllSized(data, csize) && c < |data|
    requires data[c] == ZeroBytes(csize) || (at <= Start(|t|, csize) && Start(|t|, csize) + csize <= at + n)
    ensures Blank(data, t + [c], from, at, n)
  {
    hide Flat, Start;
    FlatAppend(data, t, c);
    FlatSize(data, t, csize);
    assert |data[c]| == csize;
  }

  /** What is behind the end does not count. */
  lemma BlankEnd(data: Clusters, t: seq<nat>, csize: nat, from: nat, at: nat, n: nat, m: nat)
    requires Blank(data, t, from, at, n) && AllSized(data, csize) && Start(|t|, csize) <= at + m
    ensures Blank(data, t, from, at, m)
  {
    hide Start;
    FlatSize(data, t, csize);
  }

  lemma FilledAt(offset: nat, count: nat, csize: nat)
    requires csize > 0 && Fills(offset, count, csize)
    ensures count >= csize && offset == Start(IndexOf(offset, csize), csize)
  {
    Position(offset, csize);
  }

  lemma StillPlaced(n: Node, fat: Table, s: seq<nat>, t: seq<nat>)
    requires Placed(n, s) && s != [] && Extended(fat, s, t)
    ensures Placed(n, t)
  {
  }

  /** A position is a multiple of the cluster size exactly at the end of its cluster. */
  lemma Boundary(pos: nat, at: nat, csize: nat)
    requires csize > 0 && Start(at, csize) < pos <= Start(at, csize) + csize
    ensures pos % csize == 0 <==> pos == Start(at, csize) + csize
    ensures Start(at + 1, csize) == Start(at, csize) + csize
  {
    if pos < Start(at, csize) + csize {
      PositionIs(pos, at, csize);
    } else {
      PositionIs(pos, at + 1, csize);
    }
  }

  lemma ChainStarts(fat: Table, s: seq<nat>, at: nat)
    requires IsChain(fat, s) && Sized(fat) && at < |s|
    ensures s[at] >= 2
  {
    ChainAt(fat, s, at);
  }

  lemma FreshCluster(fat: Table, s: seq<nat>, c: nat)
    requires IsChain(fat, s) && Sized(fat) && InVolume(fat, c) && fat[c] == 0
    ensures s != [] ==> InVolume(fat, LastOf(s)) && LastOf(s) != c && fat[LastOf(s)] != 0
  {
    if s != [] { ChainAt(fat, s, |s| - 1); }
  }

  /** Replacing a link by another link does not change the free count. */
  lemma StillCounted(fat: Table, freeCount: nat, c: nat, v: nat)
    requires Counted(fat, freeCount) && InVolume(fat, c) && fat[c] != 0 && v != 0
    ensures Counted(fat[c := v], freeCount)
  {
    ZerosUpdate(fat, |fat|, c, v);
  }

  lemma Appended(fat: Table, data: Clusters, s: seq<nat>, c: nat, now: Table, nowData: Clusters)
    requires IsChain(fat, s) && Sized(fat) && InVolume(fat, c) && fat[c] == 0 && OnlyAt(data, nowData, c)
    requires s == [] ==> now == fat[c := EOC]
    requires s != [] ==> LastOf(s) < |fat| && now == fat[c := EOC][LastOf(s) := c]
    ensures Sprouted(fat, data, s, now, nowData, s + [c]) && DataKept(fat, data, nowData, [])
  {
    if s == [] { ChainNew(fat, c); assert s + [c] == [c]; } else { ChainAppend(fat, s, c); }
  }

  lemma TakenBack(fat: Table, data: Clusters, s: seq<nat>, c: nat, n: nat, now: Table, nowData: Clusters)
    requires IsChain(fat, s) && Sized(fat) && InVolume(fat, c) && fat[c] == 0 && OnlyAt(data, nowData, c)
    requires n <= 1 && now == Freed(fat[c := EOC], [c], n)
    ensures Sprouted(fat, data, s, now, nowData, s) && DataKept(fat, data, nowData, [])
  {
    FreedNone(fat[c := EOC], [c]);
    assert Freed(fat[c := EOC], [c], 1) == Freed(fat[c := EOC], [c], 0)[c := 0];
    forall d | d in s ensures d != c && d < |fat| { Occupied(fat, s, d); }
    ChainKept(fat, now, s);
  }

  lemma SproutTrans(f0: Table, d0: Clusters, s: seq<nat>, f1: Table, d1: Clusters, t: seq<nat>, f2: Table, d2: Clusters,
                    u: seq<nat>)
    requires Sprouted(f0, d0, s, f1, d1, t) && Sprouted(f1, d1, t, f2, d2, u) && Sized(f1)
    ensures Sprouted(f0, d0, s, f2, d2, u)
    ensures DataKept(f0, d0, d1, []) && DataKept(f1, d1, d2, []) ==> DataKept(f0, d0, d2, [])
  {
    FramedTrans(f0, f1, f2, s, t, u);
    forall c | InVolume(f0, c) && f0[c] != 0 && c !in s ensures c !in t {
      forall i | 0 <= i < |t| ensures t[i] != c { assert i < |s| ==> t[i] == s[i]; }
    }
    if DataKept(f0, d0, d1, []) && DataKept(f1, d1, d2, []) {
      forall c | InVolume(f0, c) && f0[c] != 0 && c < |d0| ensures d2[c] == d0[c] {
        if c in s {
          var i :| 0 <= i < |s| && s[i] == c;
          assert t[i] == c;
          ChainAt(f1, t, i);
        }
      }
    }
  }

  lemma FreedNone(fat: Table, s: seq<nat>)
    requires forall i :: 0 <= i < |s| ==> InVolume(fat, s[i])
    ensures Freed(fat, s, 0) == fat
  {
  }

  /** The next cluster of the chain to be freed still has its entry. */
  lemma FreedStep(fat: Table, s: seq<nat>, n: nat)
    requires IsChain(fat, s) && Sized(fat) && n < |s| && forall i :: 0 <= i < |s| ==> InVolume(fat, s[i])
    ensures Freed(fat, s, n + 1) == Freed(fat, s, n)[s[n] := 0] && Freed(fat, s, n)[s[n]] == fat[s[n]]
    ensures InVolume(fat, s[n])
    ensures (n + 1 < |s| ==> fat[s[n]] == s[n + 1] && InVolume(fat, s[n + 1]) && s[n + 1] < EOC_MIN)
    ensures n + 1 == |s| ==> fat[s[n]] >= EOC_MIN
  {
    FreedAt(fat, s, n, s[n]);
    NotEarlier(s, n);
    ChainAt(fat, s, n);
  }

  // ----- the search around the volume -----

  /** Where the search starts. */
  function Hint(fat: Table, nextFree: nat): nat { if InVolume(fat, nextFree) then nextFree else 2 }

  /** The cluster that many places after another one, around the volume. */
  function Around(size: nat, start: nat, k: nat): int {
    if start + k < size then start + k else start + k - (size - 2)
  }

  ghost predicate Busy(fat: Table, start: nat, n: nat) {
    forall k :: 0 <= k < n ==> InVolume(fat, Around(|fat|, start, k)) && fat[Around(|fat|, start, k)] != 0
  }

  lemma BusyNone(fat: Table, start: nat)
    ensures Busy(fat, start, 0)
  {
  }

  lemma BusyMore(fat: Table, start: nat, n: nat, cl: nat, i: nat)
    requires Busy(fat, start, n) && InVolume(fat, start) && n < |fat| - 2 && n + i <= |fat| - 2
    requires cl == Around(|fat|, start, n) && cl + i <= |fat| && forall c :: cl <= c < cl + i ==> fat[c] != 0
    ensures Busy(fat, start, n + i)
    ensures cl + i < |fat| ==> Around(|fat|, start, n + i) == cl + i
    ensures cl + i == |fat| && n + i < |fat| - 2 ==> Around(|fat|, start, n + i) == 2
  {
  }

  lemma AllBusy(fat: Table, start: nat)
    requires Sized(fat) && Busy(fat, start, |fat| - 2) && (|fat| > 2 ==> InVolume(fat, start))
    ensures forall c :: InVolume(fat, c) ==> fat[c] != 0
  {
    forall c | InVolume(fat, c) ensures fat[c] != 0 {
      var k := if c >= start then c - start else c - start + (|fat| - 2);
      assert Around(|fat|, start, k) == c;
    }
  }
}
