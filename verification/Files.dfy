/** Whole runs on the files of a FAT32 volume: reads, writes, resizing and
    syncing of many files, with any pattern of block-layer failures and full
    volumes underneath, read as independent byte arrays. */
module Files {
  import opened Bytes
  import opened Fat
  import opened Volume

  type View = map<nat, seq<bv8>>

  datatype Op =
    | ReadAt(f: nat, offset: nat, count: nat)
    | WriteAt(f: nat, offset: nat, buffer: seq<bv8>)
    | SetSize(f: nat, size: nat)
    | Save(f: nat)

  /** The result, the bytes a read brought, and how far a change got: zeros in
      front and bytes of a write, or the size reached. A write that the block layer
      broke off may have overwritten more of the file than its result says. */
  datatype Reply = Reply(result: int, out: seq<bv8>, hole: nat, reached: nat, failed: bool)

  /** What a run is about: the bytes of each file, what refuses a change of it, how many
      clusters it holds, the size its directory entry gives, the free clusters, and how many
      requests the block layer got so far. */
  datatype Situation = Situation(files: View, checks: map<nat, int>, clusters: map<nat, nat>, saved: map<nat, nat>,
                                 free: nat, csize: nat, asked: nat)

  ghost predicate Sound(v: Situation) {
    && v.files.Keys == v.checks.Keys == v.clusters.Keys == v.saved.Keys
    && forall f :: f in v.files ==> f in v.clusters && |v.files[f]| <= Start(v.clusters[f], v.csize) && v.checks[f] <= 0
  }

  /** How long a file could get. */
  ghost function RoomOf(v: Situation, f: nat): nat
    requires f in v.clusters
  {
    Start(v.clusters[f] + v.free, v.csize)
  }

  /** Clusters went from the free ones to one file or back, and the file took no more than it needed up to an end. */
  ghost predicate Balanced(v: Situation, w: Situation, f: nat, end: nat)
    requires f in v.clusters && f in w.clusters
  {
    && w.free + w.clusters[f] == v.free + v.clusters[f]
    && (w.clusters[f] > v.clusters[f] ==> Start(w.clusters[f] - 1, v.csize) < end)
  }

  ghost predicate DidRead(op: Op, reply: Reply, v: Situation, w: Situation)
    requires op.ReadAt? && op.f in v.files && op.f in v.checks
  {
    var least := Least(op.count, op.offset, |v.files[op.f]|);
    && w == v.(asked := w.asked)
    && if v.checks[op.f] == EISDIR then reply.result == EISDIR && reply.out == [] else
         && (reply.result == 0 <==> least == 0) && reply.result <= least
         && (reply.result < 0 ==> reply.out == [])
         && (reply.result >= 0 ==> reply.result == |reply.out|)
         && (reply.result > 0 ==> reply.out == v.files[op.f][op.offset..op.offset + reply.result])
         && (reply.failed <==> reply.result < least)
  }

  /** A write with a block layer that works: everything that fits, cut short only where the volume is full. */
  ghost predicate Worked(op: Op, reply: Reply, v: Situation, w: Situation)
    requires op.WriteAt? && op.f in v.files && op.f in v.clusters && op.f in w.clusters && op.offset <= MAX_SIZE
  {
    var size, n, room := |v.files[op.f]|, Fitting(|op.buffer|, op.offset), RoomOf(v, op.f);
    && Balanced(v, w, op.f, op.offset + n)
    && reply.result == (if op.offset + n <= room then n else if op.offset < room then room - op.offset else ENOSPC)
    && reply.hole == (if op.offset <= size then 0 else if op.offset <= room then op.offset - size else room - size)
    && reply.reached == if reply.result < 0 then 0 else reply.result
  }

  ghost predicate DidWrite(op: Op, reply: Reply, v: Situation, w: Situation)
    requires op.WriteAt? && op.f in v.files && op.f in v.checks && op.f in v.clusters && op.offset <= MAX_SIZE
  {
    var size, n := |v.files[op.f]|, Fitting(|op.buffer|, op.offset);
    && op.f in w.clusters && w.saved == v.saved && w.clusters == v.clusters[op.f := w.clusters[op.f]]
    && reply.reached <= |op.buffer|
    && w.files == v.files[op.f := AfterWrite(v.files[op.f], op.offset, reply.hole, op.buffer[..reply.reached])]
    && (reply.reached > 0 ==> op.offset <= size + reply.hole)
    && (reply.reached > 0 && reply.result != reply.reached ==> reply.failed && op.offset + reply.reached <= size)
    && if v.checks[op.f] != 0 || op.buffer == [] || op.offset == MAX_SIZE then
         && w == v.(asked := w.asked) && reply.reached == 0
         && reply.result == if v.checks[op.f] != 0 then v.checks[op.f] else if op.buffer == [] then 0 else EFBIG
       else
         && reply.result != 0 && reply.result <= n && reply.result <= reply.reached
         && (if reply.failed then reply.result < n else Worked(op, reply, v, w))
  }

  /** A file made longer with a block layer that works. */
  ghost predicate Grew(op: Op, reply: Reply, v: Situation, w: Situation)
    requires op.SetSize? && op.f in v.clusters && op.f in w.clusters
  {
    && Balanced(v, w, op.f, op.size)
    && reply.result == (if op.size <= RoomOf(v, op.f) then 0 else ENOSPC)
    && reply.reached == if op.size <= RoomOf(v, op.f) then op.size else RoomOf(v, op.f)
  }

  ghost predicate DidResize(op: Op, reply: Reply, v: Situation, w: Situation)
    requires op.SetSize? && op.f in v.files && op.f in v.checks && op.f in v.clusters && v.csize > 0
  {
    var size := |v.files[op.f]|;
    && op.f in w.clusters && w.clusters == v.clusters[op.f := w.clusters[op.f]]
    && w.files == v.files[op.f := Resize(v.files[op.f], reply.reached)]
    && w.saved == (if reply.reached < size then v.saved[op.f := reply.reached] else v.saved)
    && reply.result <= 0 && (reply.result == 0 ==> reply.reached == op.size && !reply.failed)
    && (if op.size <= size then reply.reached == op.size || reply.reached == size else size <= reply.reached <= op.size)
    && if v.checks[op.f] != 0 || op.size == size then
         w == v.(asked := w.asked) && reply.reached == size && reply.result == v.checks[op.f]
       else if op.size < size then
         !reply.failed ==>
           && reply.result == 0 && w.clusters[op.f] == Keep(op.size, v.csize)
           && w.free + w.clusters[op.f] == v.free + v.clusters[op.f]
       else
         !reply.failed ==> Grew(op, reply, v, w)
  }

  ghost predicate DidSave(op: Op, reply: Reply, v: Situation, w: Situation)
    requires op.Save? && op.f in v.files
  {
    && reply.result <= 0 && (reply.result < 0 <==> reply.failed)
    && w == v.(asked := w.asked, saved := if reply.result == 0 then v.saved[op.f := |v.files[op.f]|] else v.saved)
  }

  /** One call: its result and what it leaves, fixed by what was there unless the block layer failed during it. */
  ghost predicate Did(answer: nat -> int, op: Op, reply: Reply, v: Situation, w: Situation) {
    && Sound(v) && Sound(w) && op.f in v.files && w.checks == v.checks && w.csize == v.csize && v.csize > 0
    && v.asked <= w.asked && reply.failed == Failed(answer, v.asked, w.asked)
    && match op
       case ReadAt(_, _, _) => DidRead(op, reply, v, w)
       case WriteAt(_, _, _) => op.offset <= MAX_SIZE && DidWrite(op, reply, v, w)
       case SetSize(_, _) => DidResize(op, reply, v, w)
       case Save(_) => DidSave(op, reply, v, w)
  }

  ghost predicate Ran(answer: nat -> int, ops: seq<Op>, replies: seq<Reply>, trace: seq<Situation>) {
    && |replies| == |ops| && |trace| == |ops| + 1
    && forall i :: 0 <= i < |ops| ==> Did(answer, ops[i], replies[i], trace[i], trace[i + 1])
  }

  // ----- the situation of a volume -----

  ghost function Lengths(chains: Chains): map<nat, nat> { map f | f in chains :: |chains[f]| }

  ghost function Sizes(entries: map<nat, Entry>): map<nat, nat> { map f | f in entries :: entries[f].size }

  ghost function Checks(nodes: map<nat, Node>, readonly: bool): map<nat, int> {
    map f | f in nodes ::
      if nodes[f].isDir then EISDIR else if readonly then EROFS else if nodes[f].readOnly then EACCES else 0
  }

  ghost function Snap(disk: Disk): Situation
    requires disk.Valid()
    reads disk
  {
    Situation(disk.View(), Checks(disk.nodes, disk.readonly), Lengths(disk.chains), Sizes(disk.entries),
              Zeros(disk.fat, |disk.fat|), disk.csize, disk.earlier + disk.asked)
  }

  lemma SnapSound(st: Volume.State, v: Situation)
    requires Good(st) && v.files == ViewOf(st) && v.csize == st.csize
    requires exists readonly :: v.checks == Checks(st.nodes, readonly)
    requires v.clusters == Lengths(st.chains) && v.saved == Sizes(st.entries)
    ensures Sound(v) && v.csize > 0 && v.files.Keys == st.nodes.Keys == st.chains.Keys == st.entries.Keys
    ensures forall f :: f in st.nodes ==> |v.files[f]| == st.nodes[f].size
  {
    hide ViewOf, Start, AllChains, AllSized;
    ViewKeys(st);
    forall f | f in v.files ensures |v.files[f]| <= Start(v.clusters[f], v.csize) {
      assert Kept(st.nodes[f], st.entries[f], st.chains[f], st.csize);
    }
  }

  lemma SameChecks(nodes: map<nat, Node>, now: map<nat, Node>, readonly: bool)
    requires nodes.Keys == now.Keys && SameKinds(nodes, now)
    ensures Checks(now, readonly) == Checks(nodes, readonly)
  {
    forall f | f in nodes ensures SameKind(nodes[f], now[f]) {}
  }

  lemma OneLength(chains: Chains, now: Chains, f: nat)
    requires f in now && OnlyChain(chains, now, f)
    ensures Lengths(now) == Lengths(chains)[f := |now[f]|]
  {
  }

  lemma CheckAt(nodes: map<nat, Node>, readonly: bool, f: nat)
    requires f in nodes
    ensures f in Checks(nodes, readonly) && Checks(nodes, readonly).Keys == nodes.Keys
    ensures Checks(nodes, readonly)[f] == if nodes[f].isDir then EISDIR else if readonly then EROFS
      else if nodes[f].readOnly then EACCES else 0
  {
  }

  lemma LengthAt(chains: Chains, f: nat)
    requires f in chains
    ensures f in Lengths(chains) && Lengths(chains)[f] == |chains[f]|
  {
  }

  lemma OneSize(entries: map<nat, Entry>, now: map<nat, Entry>, f: nat, e: Entry)
    requires now == entries[f := e]
    ensures Sizes(now) == Sizes(entries)[f := e.size]
  {
  }

  // ----- one call -----

  ghost predicate Sensible(op: Op, disk: Disk)
    reads disk
  {
    op.f in disk.nodes && (op.WriteAt? ==> op.offset <= MAX_SIZE) && (op.SetSize? ==> op.size <= MAX_SIZE)
  }

  lemma FailedIs(disk: Disk, from: nat, till: nat)
    requires from == disk.earlier && till == disk.earlier + disk.asked
    ensures disk.Broke() == Failed(disk.answer, from, till)
  {
    hide Failed;
  }

  lemma NothingFailed(disk: Disk)
    requires disk.asked == 0
    ensures !disk.Broke()
  {
  }

  method DoRead(disk: Disk, op: Op) returns (ghost reply: Reply)
    requires disk.Valid() && Sensible(op, disk) && op.ReadAt? && disk.asked == 0
    modifies disk
    ensures disk.Valid() && disk.nodes.Keys == old(disk.nodes).Keys
    ensures Did(disk.answer, op, reply, old(Snap(disk)), Snap(disk))
  {
    hide Good, ViewOf, Disk.Base, Least, Lengths, Sizes, Checks, Sound, SameKinds;
    CheckAt(disk.nodes, disk.readonly, op.f);
    NothingFailed(disk);
    ghost var v := Snap(disk);
    SnapSound(disk.Now(), v);
    var r, out := disk.Read(op.f, op.offset, op.count);
    SameChecks(old(disk.nodes), disk.nodes, disk.readonly);
    ghost var w := Snap(disk);
    SnapSound(disk.Now(), w);
    FailedIs(disk, v.asked, w.asked);
    reply := Reply(r, out, 0, 0, Failed(disk.answer, v.asked, w.asked));
  }

  /** A write that worked, in numbers. */
  lemma WriteInNumbers(v: Situation, w: Situation, op: Op, reply: Reply, a: Table, s: seq<nat>, b: Table, t: seq<nat>)
    requires op.WriteAt? && op.f in v.files && op.f in v.clusters && op.f in w.clusters && op.offset <= MAX_SIZE
    requires |a| >= 2 && |b| >= 2
    requires v.clusters[op.f] == |s| && w.clusters[op.f] == |t| && v.free == Zeros(a, |a|) && w.free == Zeros(b, |b|)
    requires Fulfilled(a, s, b, t, v.csize, |v.files[op.f]|, op.offset, Fitting(|op.buffer|, op.offset), reply.result,
                       reply.hole, reply.reached)
    ensures Worked(op, reply, v, w)
  {
    hide Start, Zeros, Fitting;
  }

  lemma WriteStep(answer: nat -> int, op: Op, reply: Reply, v: Situation, w: Situation, k: nat)
    requires Sound(v) && Sound(w) && op.WriteAt? && op.f in v.files && op.offset <= MAX_SIZE && v.csize > 0
    requires w == v.(files := w.files, clusters := v.clusters[op.f := k], free := w.free, asked := w.asked)
    requires v.asked <= w.asked && reply.failed == Failed(answer, v.asked, w.asked) && reply.reached <= |op.buffer|
    requires w.files == v.files[op.f := AfterWrite(v.files[op.f], op.offset, reply.hole, op.buffer[..reply.reached])]
    requires reply.reached > 0 ==> op.offset <= |v.files[op.f]| + reply.hole
    requires reply.reached > 0 && reply.result != reply.reached ==>
      reply.failed && op.offset + reply.reached <= |v.files[op.f]|
    requires v.checks[op.f] != 0 || op.buffer == [] || op.offset == MAX_SIZE ==>
      k == v.clusters[op.f] && w.free == v.free
    requires v.checks[op.f] != 0 || op.buffer == [] || op.offset == MAX_SIZE ==> reply.hole == 0 && reply.reached == 0
    requires v.checks[op.f] != 0 ==> reply.result == v.checks[op.f]
    requires v.checks[op.f] == 0 && op.buffer == [] ==> reply.result == 0
    requires v.checks[op.f] == 0 && op.buffer != [] && op.offset == MAX_SIZE ==> reply.result == EFBIG
    requires v.checks[op.f] == 0 && op.buffer != [] && op.offset < MAX_SIZE ==>
      reply.result != 0 && reply.result <= Fitting(|op.buffer|, op.offset) && reply.result <= reply.reached
    requires v.checks[op.f] == 0 && op.buffer != [] && op.offset < MAX_SIZE ==>
      if reply.failed then reply.result < Fitting(|op.buffer|, op.offset) else Worked(op, reply, v, w)
    ensures Did(answer, op, reply, v, w)
  {
    hide AfterWrite, Fitting, Sound, Failed, Worked;
    assert op.f in v.checks && op.f in v.clusters by { KeysAgree(v); }
    if v.checks[op.f] != 0 || op.buffer == [] || op.offset == MAX_SIZE {
      WriteRefused(v, w, op, reply, k);
    }
  }

  lemma KeysAgree(v: Situation)
    requires Sound(v)
    ensures v.files.Keys == v.checks.Keys == v.clusters.Keys == v.saved.Keys
  {
  }

  lemma WriteRefused(v: Situation, w: Situation, op: Op, reply: Reply, k: nat)
    requires op.WriteAt? && op.f in v.files && op.f in v.clusters && v.clusters[op.f] == k
    requires w == v.(files := w.files, clusters := v.clusters[op.f := k], asked := w.asked) && reply.hole == 0
    requires reply.reached == 0
    requires w.files == v.files[op.f := AfterWrite(v.files[op.f], op.offset, 0, [])]
    ensures w == v.(asked := w.asked)
  {
    assert AfterWrite(v.files[op.f], op.offset, 0, []) == v.files[op.f];
  }

  method DoWrite(disk: Disk, op: Op) returns (ghost reply: Reply)
    requires disk.Valid() && Sensible(op, disk) && op.WriteAt? && disk.asked == 0
    modifies disk
    ensures disk.Valid() && disk.nodes.Keys == old(disk.nodes).Keys
    ensures Did(disk.answer, op, reply, old(Snap(disk)), Snap(disk))
  {
    hide Good, ViewOf, Disk.Base, AfterWrite, Fitting, Lengths, Sizes, Checks, Sound, SameKinds, Failed, Start, Zeros;
    hide Worked, Fulfilled, OnlyChain, Did;
    ghost var v := Snap(disk);
    CheckAt(disk.nodes, disk.readonly, op.f);
    NothingFailed(disk);
    SnapSound(disk.Now(), v);
    LengthAt(disk.chains, op.f);
    EntryThere(disk.Now(), op.f);
    var r, hole, reach := disk.Write(op.f, op.offset, op.buffer);
    SameChecks(old(disk.nodes), disk.nodes, disk.readonly);
    ghost var w := Snap(disk);
    SnapSound(disk.Now(), w);
    OneLength(old(disk.chains), disk.chains, op.f);
    EntryThere(disk.Now(), op.f);
    FailedIs(disk, v.asked, w.asked);
    reply := Reply(r, [], hole, reach, Failed(disk.answer, v.asked, w.asked));
    assert w == v.(files := w.files, clusters := v.clusters[op.f := |disk.chains[op.f]|], free := w.free,
                   asked := w.asked);
    if !reply.failed && v.checks[op.f] == 0 && op.buffer != [] && op.offset < MAX_SIZE {
      WriteInNumbers(v, w, op, reply, old(disk.fat), old(disk.chains)[op.f], disk.fat, disk.chains[op.f]);
    }
    WriteStep(disk.answer, op, reply, v, w, |disk.chains[op.f]|);
  }

  /** A growing file, in numbers. */
  lemma GrowInNumbers(v: Situation, w: Situation, op: Op, reply: Reply, a: Table, s: seq<nat>, b: Table, t: seq<nat>)
    requires op.SetSize? && op.f in v.files && op.f in v.clusters && op.f in w.clusters && |a| >= 2 && |b| >= 2
    requires v.clusters[op.f] == |s| && w.clusters[op.f] == |t| && v.free == Zeros(a, |a|) && w.free == Zeros(b, |b|)
    requires |v.files[op.f]| < op.size && |v.files[op.f]| <= reply.reached
    requires Landed(a, s, b, t, v.csize, reply.result, |v.files[op.f]|, reply.reached - |v.files[op.f]|,
                    op.size - |v.files[op.f]|)
    ensures Grew(op, reply, v, w)
  {
    hide Start, Zeros;
  }

  lemma ResizeStep(answer: nat -> int, op: Op, reply: Reply, v: Situation, w: Situation, k: nat)
    requires Sound(v) && Sound(w) && op.SetSize? && op.f in v.files && v.csize > 0
    requires w == v.(files := w.files, clusters := v.clusters[op.f := k], saved := w.saved, free := w.free,
                     asked := w.asked)
    requires v.asked <= w.asked && reply.failed == Failed(answer, v.asked, w.asked)
    requires w.files == v.files[op.f := Resize(v.files[op.f], reply.reached)]
    requires w.saved == if reply.reached < |v.files[op.f]| then v.saved[op.f := reply.reached] else v.saved
    requires reply.result <= 0 && (reply.result == 0 ==> reply.reached == op.size && !reply.failed)
    requires op.size <= |v.files[op.f]| ==> reply.reached == op.size || reply.reached == |v.files[op.f]|
    requires op.size > |v.files[op.f]| ==> |v.files[op.f]| <= reply.reached <= op.size
    requires v.checks[op.f] != 0 || op.size == |v.files[op.f]| ==> k == v.clusters[op.f] && w.free == v.free
    requires v.checks[op.f] != 0 || op.size == |v.files[op.f]| ==>
      reply.result == v.checks[op.f] && reply.reached == |v.files[op.f]|
    requires !reply.failed && v.checks[op.f] == 0 && op.size < |v.files[op.f]| ==>
      reply.result == 0 && k == Keep(op.size, v.csize) && w.free + k == v.free + v.clusters[op.f]
    requires !reply.failed && v.checks[op.f] == 0 && op.size > |v.files[op.f]| ==> Grew(op, reply, v, w)
    ensures Did(answer, op, reply, v, w)
  {
    hide Resize, Sound, Failed, Grew, Keep;
    assert op.f in v.checks && op.f in v.clusters by { KeysAgree(v); }
    if v.checks[op.f] != 0 || op.size == |v.files[op.f]| { ResizeRefused(v, w, op, reply, k); }
  }

  lemma ResizeRefused(v: Situation, w: Situation, op: Op, reply: Reply, k: nat)
    requires op.SetSize? && op.f in v.files && op.f in v.clusters && v.clusters[op.f] == k
    requires reply.reached == |v.files[op.f]|
    requires w == v.(files := w.files, clusters := v.clusters[op.f := k], asked := w.asked)
    requires w.files == v.files[op.f := Resize(v.files[op.f], reply.reached)]
    ensures w == v.(asked := w.asked)
  {
    assert Resize(v.files[op.f], reply.reached) == v.files[op.f];
  }

  method DoResize(disk: Disk, op: Op) returns (ghost reply: Reply)
    requires disk.Valid() && Sensible(op, disk) && op.SetSize? && disk.asked == 0
    modifies disk
    ensures disk.Valid() && disk.nodes.Keys == old(disk.nodes).Keys
    ensures Did(disk.answer, op, reply, old(Snap(disk)), Snap(disk))
  {
    hide Good, ViewOf, Disk.Base, Resize, Lengths, Sizes, Checks, Sound, SameKinds, Failed, Start, Zeros, Keep, Landed;
    hide OnlyChain, Grew, Did;
    ghost var v := Snap(disk);
    CheckAt(disk.nodes, disk.readonly, op.f);
    NothingFailed(disk);
    SnapSound(disk.Now(), v);
    LengthAt(disk.chains, op.f);
    EntryThere(disk.Now(), op.f);
    var r, reached := disk.Truncate(op.f, op.size);
    SameChecks(old(disk.nodes), disk.nodes, disk.readonly);
    ghost var w := Snap(disk);
    SnapSound(disk.Now(), w);
    OneLength(old(disk.chains), disk.chains, op.f);
    EntryThere(disk.Now(), op.f);
    if reached < |v.files[op.f]| { OneSize(old(disk.entries), disk.entries, op.f, disk.entries[op.f]); }
    FailedIs(disk, v.asked, w.asked);
    reply := Reply(r, [], 0, reached, Failed(disk.answer, v.asked, w.asked));
    assert w == v.(files := w.files, clusters := v.clusters[op.f := |disk.chains[op.f]|], saved := w.saved,
                   free := w.free, asked := w.asked);
    if !reply.failed && v.checks[op.f] == 0 && op.size > |v.files[op.f]| {
      GrowInNumbers(v, w, op, reply, old(disk.fat), old(disk.chains)[op.f], disk.fat, disk.chains[op.f]);
    }
    ResizeStep(disk.answer, op, reply, v, w, |disk.chains[op.f]|);
  }

  method DoSave(disk: Disk, op: Op) returns (ghost reply: Reply)
    requires disk.Valid() && Sensible(op, disk) && op.Save? && disk.asked == 0
    modifies disk
    ensures disk.Valid() && disk.nodes.Keys == old(disk.nodes).Keys
    ensures Did(disk.answer, op, reply, old(Snap(disk)), Snap(disk))
  {
    hide Good, ViewOf, Disk.Base, Lengths, Sizes, Checks, Sound, SameKinds, Failed, Start, Zeros;
    CheckAt(disk.nodes, disk.readonly, op.f);
    NothingFailed(disk);
    ghost var v := Snap(disk);
    SnapSound(disk.Now(), v);
    var r := disk.SyncFile(op.f);
    SameChecks(old(disk.nodes), disk.nodes, disk.readonly);
    ghost var w := Snap(disk);
    SnapSound(disk.Now(), w);
    if r == 0 { OneSize(old(disk.entries), disk.entries, op.f, disk.entries[op.f]); }
    FailedIs(disk, v.asked, w.asked);
    reply := Reply(r, [], 0, 0, Failed(disk.answer, v.asked, w.asked));
  }

  method Do(disk: Disk, op: Op) returns (ghost reply: Reply)
    requires disk.Valid() && Sensible(op, disk)
    modifies disk
    ensures disk.Valid() && disk.nodes.Keys == old(disk.nodes).Keys
    ensures Did(disk.answer, op, reply, old(Snap(disk)), Snap(disk))
  {
    hide Good, ViewOf, Disk.Base, Lengths, Sizes, Checks, Zeros, Did;
    disk.Begin();
    assert Snap(disk) == old(Snap(disk));
    match op
    case ReadAt(_, _, _) => reply := DoRead(disk, op);
    case WriteAt(_, _, _) => reply := DoWrite(disk, op);
    case SetSize(_, _) => reply := DoResize(disk, op);
    case Save(_) => reply := DoSave(disk, op);
  }

  // ----- whole runs -----

  method Run(disk: Disk, ops: seq<Op>) returns (ghost replies: seq<Reply>, ghost trace: seq<Situation>)
    requires disk.Valid() && forall i :: 0 <= i < |ops| ==> Sensible(ops[i], disk)
    modifies disk
    ensures disk.Valid() && Ran(disk.answer, ops, replies, trace) && trace[0] == old(Snap(disk))
    ensures trace[|ops|] == Snap(disk)
  {
    hide Did, Good, ViewOf, Disk.Base, Snap;
    replies, trace := [], [Snap(disk)];
    var i := 0;
    while i < |ops|
      invariant 0 <= i <= |ops| && disk.Valid() && disk.nodes.Keys == old(disk.nodes).Keys
      invariant Ran(disk.answer, ops[..i], replies, trace) && trace[0] == old(Snap(disk)) && trace[i] == Snap(disk)
    {
      assert Sensible(ops[i], disk);
      ghost var reply := Do(disk, ops[i]);
      RanMore(disk.answer, ops[..i], replies, trace, ops[i], reply, Snap(disk));
      assert ops[..i] + [ops[i]] == ops[..i + 1];
      replies, trace, i := replies + [reply], trace + [Snap(disk)], i + 1;
    }
    assert ops[..i] == ops;
  }

  lemma RanMore(answer: nat -> int, ops: seq<Op>, replies: seq<Reply>, trace: seq<Situation>, op: Op, reply: Reply,
                w: Situation)
    requires Ran(answer, ops, replies, trace) && Did(answer, op, reply, trace[|ops|], w)
    ensures Ran(answer, ops + [op], replies + [reply], trace + [w])
  {
    hide Did;
  }

  // ----- what every run promises -----

  /** A file that no write or resize of the run names reads the same afterwards. */
  lemma {:induction false} Untouched(answer: nat -> int, ops: seq<Op>, replies: seq<Reply>, trace: seq<Situation>,
                                     n: nat, f: nat)
    requires Ran(answer, ops, replies, trace) && n <= |ops| && f in trace[0].files
    requires forall i :: 0 <= i < n ==> ops[i].ReadAt? || ops[i].Save? || ops[i].f != f
    ensures f in trace[n].files && trace[n].files[f] == trace[0].files[f]
  {
    hide AfterWrite, Resize, Sound, Worked, Grew, Failed, Least;
    if n > 0 {
      Untouched(answer, ops, replies, trace, n - 1, f);
      assert Did(answer, ops[n - 1], replies[n - 1], trace[n - 1], trace[n]);
    }
  }

  /** The operation put a byte of its own at a position of a file. */
  predicate Covers(op: Op, reply: Reply, f: nat, i: nat) {
    op.WriteAt? && op.f == f && op.offset <= i < op.offset + reply.reached
  }

  /** The operation cut the file before a position. */
  predicate Cuts(op: Op, reply: Reply, f: nat, i: nat) { op.SetSize? && op.f == f && reply.reached <= i }

  /** Any other operation keeps the byte, and a byte that appears is zero. */
  lemma OneByte(answer: nat -> int, op: Op, reply: Reply, v: Situation, w: Situation, f: nat, i: nat)
    requires Did(answer, op, reply, v, w) && f in v.files
    ensures f in w.files && (Cuts(op, reply, f, i) ==> |w.files[f]| <= i)
    ensures !Covers(op, reply, f, i) && !Cuts(op, reply, f, i) && i < |v.files[f]| ==>
      i < |w.files[f]| && w.files[f][i] == v.files[f][i]
    ensures !Covers(op, reply, f, i) && |v.files[f]| <= i < |w.files[f]| ==> w.files[f][i] == 0
    ensures Covers(op, reply, f, i) ==>
      i < |w.files[f]| && i - op.offset < |op.buffer| && w.files[f][i] == op.buffer[i - op.offset]
  {
    hide Sound, Worked, Grew, Failed, Least;
  }

  /** Bytes cut away never come back: at a position a file was once cut before, it
      holds zero until a write puts something there. */
  lemma {:induction false} CutBytesStayGone(answer: nat -> int, ops: seq<Op>, replies: seq<Reply>,
                                            trace: seq<Situation>, k: nat,
                                            n: nat, f: nat, i: nat)
    requires Ran(answer, ops, replies, trace) && k < n <= |ops| && f in trace[0].files && Cuts(ops[k], replies[k], f, i)
    requires forall j :: k < j < n ==> !Covers(ops[j], replies[j], f, i)
    ensures f in trace[n].files && (i < |trace[n].files[f]| ==> trace[n].files[f][i] == 0)
    decreases n
  {
    hide Did, Covers, Cuts;
    Present(answer, ops, replies, trace, n - 1, f);
    assert Did(answer, ops[n - 1], replies[n - 1], trace[n - 1], trace[n]);
    OneByte(answer, ops[n - 1], replies[n - 1], trace[n - 1], trace[n], f, i);
    if k < n - 1 { CutBytesStayGone(answer, ops, replies, trace, k, n - 1, f, i); }
  }

  /** Last write wins: a byte holds what the last write put there, unless the file was
      cut before it since. */
  lemma {:induction false} LastWriteWins(answer: nat -> int, ops: seq<Op>, replies: seq<Reply>, trace: seq<Situation>,
                                         k: nat, n: nat,
                                         f: nat, i: nat)
    requires Ran(answer, ops, replies, trace) && k < n <= |ops| && f in trace[0].files
    requires Covers(ops[k], replies[k], f, i)
    requires forall j :: k < j < n ==> !Covers(ops[j], replies[j], f, i) && !Cuts(ops[j], replies[j], f, i)
    ensures f in trace[n].files && i < |trace[n].files[f]| && i - ops[k].offset < |ops[k].buffer|
    ensures trace[n].files[f][i] == ops[k].buffer[i - ops[k].offset]
    decreases n
  {
    hide Cuts, Did;
    Present(answer, ops, replies, trace, n - 1, f);
    assert Did(answer, ops[n - 1], replies[n - 1], trace[n - 1], trace[n]);
    OneByte(answer, ops[n - 1], replies[n - 1], trace[n - 1], trace[n], f, i);
    if k < n - 1 { LastWriteWins(answer, ops, replies, trace, k, n - 1, f, i); }
  }

  lemma {:induction false} Present(answer: nat -> int, ops: seq<Op>, replies: seq<Reply>, trace: seq<Situation>, n: nat,
                                   f: nat)
    requires Ran(answer, ops, replies, trace) && n <= |ops| && f in trace[0].files
    ensures f in trace[n].files
  {
    hide AfterWrite, Resize, Sound, Worked, Grew, Failed, Least;
    if n > 0 {
      Present(answer, ops, replies, trace, n - 1, f);
      assert Did(answer, ops[n - 1], replies[n - 1], trace[n - 1], trace[n]);
    }
  }

  /** Reading back what was just written: with a block layer that works, a read gets it all. */
  lemma ReadBack(answer: nat -> int, v: Situation, w: Situation, x: Situation, f: nat, offset: nat, buffer: seq<bv8>,
                 wrote: Reply,
                 read: Reply)
    requires Did(answer, WriteAt(f, offset, buffer), wrote, v, w) && wrote.result == |buffer| > 0
    requires Did(answer, ReadAt(f, offset, |buffer|), read, w, x) && !Failed(answer, w.asked, x.asked)
    ensures read.result == |buffer| && read.out == buffer
  {
    hide Failed, Worked, Start;
    assert v.checks[f] <= 0;
    assert buffer[..|buffer|] == buffer;
  }

  /** The limits of the format, the room on the volume and a failing block layer are all that stop a write. */
  lemma RoomEnough(answer: nat -> int, v: Situation, w: Situation, f: nat, offset: nat, buffer: seq<bv8>, wrote: Reply)
    requires Did(answer, WriteAt(f, offset, buffer), wrote, v, w)
    requires f in v.checks && f in v.clusters && v.checks[f] == 0 && 0 < |buffer| <= MAX_COUNT
    ensures wrote.result == |buffer| <==>
      && !Failed(answer, v.asked, w.asked)
      && offset + |buffer| <= MAX_SIZE && offset + |buffer| <= RoomOf(v, f)
  {
    hide Failed, Start, AfterWrite, Sound;
  }

  // ----- clusters and saved sizes over a run -----

  /** How many clusters the files below a number hold. */
  ghost function Total(clusters: map<nat, nat>, n: nat): nat {
    if n == 0 then 0 else Total(clusters, n - 1) + if n - 1 in clusters then clusters[n - 1] else 0
  }

  lemma {:induction false} TotalUpdate(clusters: map<nat, nat>, n: nat, f: nat, k: nat)
    requires f in clusters
    ensures Total(clusters[f := k], n) == Total(clusters, n) + if f < n then k - clusters[f] else 0
  {
    if n > 0 { TotalUpdate(clusters, n - 1, f, k); }
  }

  lemma OneBalance(answer: nat -> int, op: Op, reply: Reply, v: Situation, w: Situation, n: nat)
    requires Did(answer, op, reply, v, w) && !reply.failed && op.f < n
    ensures w.free + Total(w.clusters, n) == v.free + Total(v.clusters, n)
  {
    hide Failed, Start, AfterWrite, Resize, Least, Total;
    assert op.f in v.clusters;
    if op.WriteAt? || op.SetSize? { TotalUpdate(v.clusters, n, op.f, w.clusters[op.f]); }
  }

  /** No cluster is lost: as long as the block layer works, what the files hold and what is free stay together the
      same. */
  lemma {:induction false} NothingLost(answer: nat -> int, ops: seq<Op>, replies: seq<Reply>, trace: seq<Situation>,
                                       n: nat, most: nat)
    requires Ran(answer, ops, replies, trace) && n <= |ops|
    requires forall i :: 0 <= i < n ==> !replies[i].failed && ops[i].f < most
    ensures trace[n].free + Total(trace[n].clusters, most) == trace[0].free + Total(trace[0].clusters, most)
  {
    hide Did, Total;
    if n > 0 {
      NothingLost(answer, ops, replies, trace, n - 1, most);
      assert Did(answer, ops[n - 1], replies[n - 1], trace[n - 1], trace[n]);
      OneBalance(answer, ops[n - 1], replies[n - 1], trace[n - 1], trace[n], most);
    }
  }

  /** A saved size stays right: after a sync that succeeded, the entry on the disk gives the size of the file until the
      next write or resize of that file, whatever happens to others. */
  lemma {:induction false} SavedSize(answer: nat -> int, ops: seq<Op>, replies: seq<Reply>, trace: seq<Situation>,
                                     k: nat, n: nat, f: nat)
    requires Ran(answer, ops, replies, trace) && k < n <= |ops| && ops[k] == Save(f) && replies[k].result == 0
    requires forall j :: k < j < n ==> ops[j].ReadAt? || ops[j].Save? || ops[j].f != f
    ensures f in trace[n].files && f in trace[n].saved && trace[n].saved[f] == |trace[n].files[f]|
    decreases n
  {
    hide AfterWrite, Resize, Sound, Worked, Grew, Failed, Least;
    assert Did(answer, ops[n - 1], replies[n - 1], trace[n - 1], trace[n]);
    if k < n - 1 { SavedSize(answer, ops, replies, trace, k, n - 1, f); }
  }
}
