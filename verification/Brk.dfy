/** The user-space allocator of user/libc/libc.c: first fit over blocks that
    follow each other up to the program break, and a pass over the whole list
    that merges free neighbours. */
module Brk {
  import opened Tiling
  import opened Blocks
  import opened Powers

  /** The largest size that is tried. */
  const MAX_SIZE := WORD / 2 - 1

  class UserHeap {
    /** The size of a header. */
    const H: nat
    const base: nat
    var blocks: seq<Block>
    /** The program break. */
    var end: nat
    /** Whether the kernel moves the break. */
    const grants: nat -> bool
    var asked: nat
    /** Every byte of memory; headers have contents nobody relies on. */
    var mem: Memory
    const noise: (nat, nat) -> bv8

    ghost predicate Valid()
      reads this
    {
      && Sound(blocks, 0, base, end, H) && base <= end && end % ALIGN == 0 && (blocks == [] ==> end == base)
      && Sized(blocks)
    }

    ghost function View(): Live
      reads this
    {
      Live(Busy(blocks), mem, Refuses(blocks, end, asked),
           (had: nat, wanted: nat) => wanted <= MAX_SIZE && AlignUp(wanted) <= had)
    }

    /** What cannot be allocated: nothing, too much, and what no free block holds when the break does not move. */
    ghost function Refuses(blocks: seq<Block>, end: nat, n: nat): nat -> bool {
      (size: nat) =>
        size == 0 || size > MAX_SIZE || (NoneFits(blocks, AlignUp(size)) && BreakRefused(end, AlignUp(size), n))
    }

    /** The break cannot move that far, or the kernel does not move it. */
    ghost predicate BreakRefused(end: nat, wanted: nat, n: nat) { end + H + wanted >= WORD || !grants(n) }

    /** heap_init: the break, aligned. */
    constructor (break_: nat, header: nat, grants: nat -> bool, mem: Memory, noise: (nat, nat) -> bv8)
      requires header > 0 && header % ALIGN == 0
      ensures Valid() && blocks == [] && base == end == AlignUp(break_) && H == header && this.mem == mem
    {
      H, base, blocks, end, this.grants, asked := header, AlignUp(break_), [], AlignUp(break_), grants, 0;
      this.mem, this.noise := mem, noise;
    }

    /** The headers of the list are written; no block's own bytes are. */
    method WriteHeaders()
      requires Sound(blocks, 0, base, end, H)
      modifies this`mem
      ensures BytesKept(Busy(blocks), H, old(mem), mem)
    {
      var m, list, h, k := mem, blocks, H, asked;
      mem := (a: nat) => if InHeader(list, h, a) then noise(k, a) else m(a);
      forall b | b in Busy(blocks) ensures SameBytes(b, H, old(mem), mem) {
        var j :| 0 <= j < |blocks| && blocks[j] == b;
        forall a | b.addr + H <= a < End(b, H)
          ensures mem(a) == old(mem)(a)
        {
          NotHeader(blocks, 0, base, end, H, j, a);
        }
      }
    }

    /** malloc: a block nobody has, from the list or at the break; nothing exactly if no
        free block is large enough and the kernel does not move the break. */
    method Malloc(size: nat) returns (p: nat, ghost b: Block)
      requires Valid()
      modifies this
      ensures Valid() && BytesKept(old(Busy(blocks)), H, old(mem), mem)
      ensures p == 0 ==> blocks == old(blocks) && end == old(end)
      ensures p == 0 <==>
        size == 0 || size > MAX_SIZE || (NoneFits(old(blocks), AlignUp(size)) && BreakRefused(old(end), AlignUp(size),
                                                                                              old(asked)))
      ensures p != 0 ==> size > 0 && p == b.addr + H && p % ALIGN == 0 && size <= AlignUp(size) <= b.size && !b.free
      ensures p != 0 ==> b !in old(Busy(blocks)) && Busy(blocks) == old(Busy(blocks)) + {b}
      ensures p != 0 && !NoneFits(old(blocks), AlignUp(size)) ==>
        end == old(end) && b.size < AlignUp(size) + H + ALIGN &&
          exists k :: FirstFit(old(blocks), k, AlignUp(size)) && Took(old(blocks), blocks, H, k, AlignUp(size), b)
      ensures p != 0 && NoneFits(old(blocks), AlignUp(size)) ==>
        blocks == old(blocks) + [b] && b == Block(old(end), AlignUp(size), false, 0) && end == b.addr + H + b.size
      ensures blocks == [] ==> old(blocks) == []
    {
      hide Busy, Sound, BytesKept, Sized;
      b := Block(0, 0, true, 0);
      BytesSame(Busy(blocks), H, mem);
      if size == 0 || size > MAX_SIZE { return 0, b; }
      var wanted := AlignUp(size);
      var k := 0;
      while k < |blocks| && !(blocks[k].free && blocks[k].size >= wanted)
        invariant 0 <= k <= |blocks| && forall i :: 0 <= i < k && blocks[i].free ==> blocks[i].size < wanted
      {
        k := k + 1;
      }
      if k < |blocks| {
        assert FirstFit(blocks, k, wanted);
        p, b := TakeAt(k, wanted);
      } else {
        p, b := AtBreak(wanted);
      }
    }

    method TakeAt(k: nat, wanted: nat) returns (p: nat, ghost b: Block)
      requires Valid() && k < |blocks| && blocks[k].free && 0 < wanted <= blocks[k].size && wanted % ALIGN == 0
      modifies this`blocks, this`mem
      ensures Valid() && BytesKept(old(Busy(blocks)), H, old(mem), mem)
      ensures p == b.addr + H && p % ALIGN == 0 && p > 0 && wanted <= b.size && !b.free
      ensures b !in old(Busy(blocks)) && Busy(blocks) == old(Busy(blocks)) + {b} && blocks != []
      ensures Took(old(blocks), blocks, H, k, wanted, b) && b.pages == 0 && b.size < wanted + H + ALIGN
    {
      hide Busy, Sound, BytesKept, Sized;
      Facts(blocks, base, end, H);
      TakeBlock(blocks, 0, base, end, H, k, wanted);
      BusyTaken(blocks, k, wanted, H);
      NewAt(blocks, base, end, H, k);
      SplitSized(blocks, k, wanted, H);
      blocks := Split(blocks, k, wanted, H);
      blocks := blocks[k := blocks[k].(free := false)];
      b := blocks[k];
      assert blocks == old(blocks)[..k] + [b] + Rest(old(blocks)[k], H, wanted) + old(blocks)[k + 1..];
      WriteHeaders();
      BytesFewer(Busy(blocks), old(Busy(blocks)), H, old(mem), mem);
      p := blocks[k].addr + H;
    }

    method AtBreak(wanted: nat) returns (p: nat, ghost b: Block)
      requires Valid() && wanted > 0 && wanted % ALIGN == 0
      modifies this
      ensures Valid() && BytesKept(old(Busy(blocks)), H, old(mem), mem)
      ensures p == 0 ==> blocks == old(blocks) && end == old(end)
      ensures p == 0 <==> BreakRefused(old(end), wanted, old(asked))
      ensures p != 0 ==> blocks == old(blocks) + [b] && b == Block(old(end), wanted, false, 0)
      ensures p != 0 ==> end == b.addr + H + b.size
      ensures p != 0 ==> p == b.addr + H && p % ALIGN == 0 && wanted <= b.size && !b.free
      ensures p != 0 ==> b !in old(Busy(blocks)) && Busy(blocks) == old(Busy(blocks)) + {b} && blocks != []
    {
      hide Busy, Sound, BytesKept, Sized;
      b := Block(0, 0, true, 0);
      BytesSame(Busy(blocks), H, mem);
      Facts(blocks, base, end, H);
      if end + H + wanted >= WORD { return 0, b; }
      asked := asked + 1;
      if !grants(asked - 1) { return 0, b; }
      b := Block(end, wanted, false, 0);
      Append(blocks, base, end, H, b);
      AppendSized(blocks, b);
      p := end + H;
      blocks := blocks + [Block(end, wanted, false, 0)];
      end := end + H + wanted;
      WriteHeaders();
      BytesFewer(Busy(blocks), old(Busy(blocks)), H, old(mem), mem);
    }

    /** free: the block is nobody's any more, and no two free blocks are neighbours; an
        address outside the heap is ignored. */
    method Free(p: nat)
      requires Valid()
      requires p == 0 || p >= end || (blocks != [] && p < base + H) ||
        exists i :: 0 <= i < |blocks| && blocks[i].addr + H == p
      modifies this`blocks, this`mem
      ensures Valid() && Busy(blocks) == Without(old(Busy(blocks)), H, p) && BytesKept(Busy(blocks), H, old(mem), mem)
      ensures blocks == [] <==> old(blocks) == []
    {
      hide Sound, Tiles, BytesKept, Busy, Without;
      BytesSame(Busy(blocks), H, mem);
      NotOwned(blocks, H, p);
      Placed(blocks, base, end, H, p);
      if p == 0 || blocks == [] { return; }
      if p < base + H || p >= end { return; }
      var k :| 0 <= k < |blocks| && blocks[k].addr + H == p;
      AddressesApart(blocks, 0, base, end, H, k);
      if blocks[k].free {
        FreeNotOwned(blocks, H, k);
        return;
      }
      Merge(k);
      ghost var busy := Busy(blocks);
      WriteHeaders();
    }

    /** Marking one block and merging all free neighbours. */
    method Merge(k: nat)
      requires Valid() && k < |blocks| && !blocks[k].free
      requires forall i :: 0 <= i < |blocks| && i != k ==> blocks[i].addr != blocks[k].addr && blocks[i] != blocks[k]
      modifies this`blocks
      ensures Valid() && Busy(blocks) == Without(old(Busy(blocks)), H, old(blocks)[k].addr + H) && blocks != []
    {
      hide Sound, Tiles, Busy, Without, Sized;
      Facts(blocks, base, end, H);
      Marked(blocks, base, end, H, k);
      MarkedSized(blocks, k);
      blocks := blocks[k := blocks[k].(free := true)];
      ghost var busy := Busy(blocks);
      var c := 0;
      while c + 1 < |blocks|
        invariant 0 <= c < |blocks| && Laid(blocks, base, end, H) && NoPairs(blocks, c) && Busy(blocks) == busy
        invariant Sized(blocks)
        decreases |blocks| - c
      {
        if blocks[c].free && blocks[c + 1].free {
          JoinedLaid(blocks, base, end, H, c);
          JoinedBusy(blocks, c, H);
          SameBusy(blocks, Joined(blocks, c, H));
          JoinedSized(blocks, c, H);
          blocks := Joined(blocks, c, H);
        } else {
          c := c + 1;
        }
      }
      AllMerged(blocks, base, end, H);
    }

    /** realloc: the old bytes at the start of a block that is large enough, or the old
        block untouched. */
    method Realloc(p: nat, size: nat, ghost b: Block) returns (q: nat)
      requires Valid() && (p == 0 || (b in Busy(blocks) && b.addr + H == p))
      modifies this
      ensures Valid() && Did(H, Resize(p, size), q, old(View()), View())
      ensures p != 0 && 0 < size <= MAX_SIZE && AlignUp(size) <= b.size ==> q == p
      ensures p != 0 && size > 0 && q == 0 ==> blocks == old(blocks) && end == old(end)
      ensures p != 0 && 0 < size <= MAX_SIZE ==>
        (q == 0 <==>
           && b.size < AlignUp(size) && NoneFits(old(blocks), AlignUp(size))
           && BreakRefused(old(end), AlignUp(size), old(asked)))
      ensures blocks == [] ==> old(blocks) == []
    {
      hide Sound, BytesKept, Busy, Moved, Without, Sized;
      if p == 0 {
        ghost var n;
        q, n := Malloc(size);
        return;
      }
      InList(blocks, b, H);
      BusyApart(blocks, 0, base, end, H, b);
      if size == 0 {
        Free(p);
        return 0;
      }
      BytesSame(Busy(blocks), H, mem);
      InUseAt(blocks, b, H);
      if size > MAX_SIZE { return 0; }
      var k :| 0 <= k < |blocks| && blocks[k].addr + H == p;
      SameBlock(blocks, 0, base, end, H, k, b);
      if blocks[k].size >= AlignUp(size) {
        BytesSame(old(Busy(blocks)) - {b}, H, mem);
        MovedNot(mem, p, b.size);
        assert Busy(blocks) == Busy(blocks) - {b} + {b};
        return p;
      }
      q := Relocate(p, blocks[k].size, size, b);
    }

    method Relocate(p: nat, oldSize: nat, size: nat, ghost b: Block) returns (q: nat)
      requires Valid() && b in Busy(blocks) && b.addr + H == p && b.size == oldSize < AlignUp(size)
      requires 0 < size <= MAX_SIZE
      modifies this
      ensures Valid()
      ensures q == 0 ==> blocks == old(blocks) && end == old(end) && BytesKept(old(Busy(blocks)), H, old(mem), mem)
      ensures q != 0 ==> Became(old(View()), View(), H, b, q, size)
      ensures q == 0 <==> NoneFits(old(blocks), AlignUp(size)) && BreakRefused(old(end), AlignUp(size), old(asked))
      ensures blocks == [] ==> old(blocks) == []
    {
      hide Sound, BytesKept, Busy, Moved, ElseSame, Without, Sized;
      Facts(blocks, base, end, H);
      ghost var n;
      q, n := Malloc(size);
      if q == 0 { return; }
      ghost var mid := mem;
      Copy(q, p, oldSize);
      CopiedBytes(old(Busy(blocks)), blocks, 0, base, end, H, b, n, old(mem), mid, mem);
      InList(blocks, b, H);
      BusyApart(blocks, 0, base, end, H, b);
      ghost var late := mem;
      Free(p);
      Finished(old(Busy(blocks)), Busy(blocks), H, b, n, old(mem), late, mem);
      assert Busy(blocks) == old(Busy(blocks)) - {b} + {n};
    }

    /** memcpy. */
    method Copy(q: nat, p: nat, n: nat)
      modifies this`mem
      ensures Moved(old(mem), p, mem, q, n) && ElseSame(old(mem), mem, q, n)
    {
      var m := mem;
      mem := (a: nat) => if q <= a < q + n then m(p + (a - q)) else m(a);
    }

    // ----- runs -----

    /** A program writes a byte of a block it has. */
    method Store(at: nat, v: bv8)
      requires Valid()
      modifies this`mem
      ensures Did(H, Write(at, v), 0, old(View()), View())
    {
      hide Sound, Busy;
      var m := mem;
      UsableIs(blocks, H, at);
      if exists i :: 0 <= i < |blocks| && !blocks[i].free && blocks[i].addr + H <= at < End(blocks[i], H) {
        mem := (a: nat) => if a == at then v else m(a);
      }
    }

    method Do(op: Op) returns (q: nat)
      requires Valid()
      modifies this
      ensures Valid() && Did(H, op, q, old(View()), View()) && (blocks == [] ==> old(blocks) == [])
    {
      hide Sound, Busy, BytesKept, Without, Sized;
      BytesSame(Busy(blocks), H, mem);
      q := 0;
      match op
      case Alloc(size) =>
        ghost var n;
        q, n := Malloc(size);
      case Release(p) =>
        NotOwned(blocks, H, p);
        if exists i :: 0 <= i < |blocks| && blocks[i].addr + H == p { Free(p); }
      case Resize(p, size) =>
        if p == 0 {
          q := Realloc(0, size, Block(0, 0, true, 0));
        } else if exists i :: 0 <= i < |blocks| && !blocks[i].free && blocks[i].addr + H == p {
          ghost var i :| 0 <= i < |blocks| && !blocks[i].free && blocks[i].addr + H == p;
          InUse(blocks, i, H, p);
          q := Realloc(p, size, blocks[i]);
        } else {
          NotOwned(blocks, H, p);
        }
      case Write(at, v) =>
        Store(at, v);
    }

    /** Any sequence of calls and writes: no block in use ever overlaps another, each call
        does what it should to the blocks and their bytes, and when nothing is in use any
        more, everything up to the break is one free block. */
    method Run(ops: seq<Op>) returns (results: seq<nat>, ghost trace: seq<Live>)
      requires Valid()
      modifies this
      ensures Valid() && Ran(H, ops, results, trace) && trace[0] == old(View()) && trace[|ops|] == View()
      ensures Busy(blocks) == {} ==>
        (blocks == [] && end == base) || (base + H <= end && blocks == [Block(base, end - base - H, true, 0)])
    {
      hide Sound, Did, View, AllApart, Sized;
      results, trace := [], [View()];
      BusyAllApart(blocks, 0, base, end, H);
      Shows();
      for k := 0 to |ops|
        invariant Valid() && |results| == k && |trace| == k + 1 && trace[0] == old(View()) && trace[k] == View()
        invariant forall i :: 0 <= i < k ==> Did(H, ops[i], results[i], trace[i], trace[i + 1])
        invariant forall i :: 0 <= i <= k ==> AllApart(trace[i].busy, H)
      {
        var q := Do(ops[k]);
        BusyAllApart(blocks, 0, base, end, H);
        Shows();
        results, trace := results + [q], trace + [View()];
      }
      if Busy(blocks) == {} && blocks != [] { EverythingFreed(blocks, base, end, H); }
    }

    lemma Shows()
      ensures View().busy == Busy(blocks)
    {
    }
  }

  lemma EverythingFreed(blocks: seq<Block>, base: nat, end: nat, H: nat)
    requires Sound(blocks, 0, base, end, H) && Busy(blocks) == {} && blocks != []
    ensures base + H <= end && blocks == [Block(base, end - base - H, true, 0)] && end > base
  {
    forall i | 0 <= i < |blocks| ensures blocks[i].free {
      FreeOrBusy(blocks, i);
    }
    OneBlockLeft(blocks, 0, base, end, H);
  }

  // ----- no block is empty -----

  ghost predicate Sized(blocks: seq<Block>) { forall i :: 0 <= i < |blocks| ==> blocks[i].size > 0 }

  lemma SplitSized(blocks: seq<Block>, k: nat, wanted: nat, H: nat)
    requires Sized(blocks) && k < |blocks| && wanted > 0
    ensures var now := Split(blocks, k, wanted, H); k < |now| && Sized(now[k := now[k].(free := false)])
  {
  }

  lemma AppendSized(blocks: seq<Block>, b: Block)
    requires Sized(blocks) && b.size > 0
    ensures Sized(blocks + [b])
  {
  }

  lemma MarkedSized(blocks: seq<Block>, k: nat)
    requires Sized(blocks) && k < |blocks|
    ensures Sized(blocks[k := blocks[k].(free := true)])
  {
  }

  lemma JoinedSized(blocks: seq<Block>, c: nat, H: nat)
    requires Sized(blocks) && c + 1 < |blocks|
    ensures Sized(Joined(blocks, c, H))
  {
  }

  /** Every block begins behind a header and ends before the break. */
  lemma Placed(blocks: seq<Block>, base: nat, end: nat, H: nat, p: nat)
    requires Sound(blocks, 0, base, end, H) && Sized(blocks)
    ensures Owned(Busy(blocks), H, p) ==> 0 < base + H <= p < end
  {
    if Owned(Busy(blocks), H, p) {
      var b :| b in Busy(blocks) && b.addr + H == p;
      var i :| 0 <= i < |blocks| && blocks[i] == b;
      Within(blocks, 0, base, end, H, i);
    }
  }

  lemma FreeNotOwned(blocks: seq<Block>, H: nat, k: nat)
    requires k < |blocks| && blocks[k].free
    requires forall i :: 0 <= i < |blocks| && i != k ==> blocks[i].addr != blocks[k].addr
    ensures !Owned(Busy(blocks), H, blocks[k].addr + H)
  {
  }

  /** Blocks end to end from the base to the break, free neighbours allowed. */
  ghost predicate Laid(blocks: seq<Block>, base: nat, end: nat, H: nat) {
    && H > 0 && H % ALIGN == 0 && blocks != [] && blocks[0].addr == base
    && forall i :: 0 <= i < |blocks| ==> LaidAt(blocks, i, end, H)
  }

  ghost predicate LaidAt(blocks: seq<Block>, i: nat, end: nat, H: nat)
    requires i < |blocks|
  {
    && blocks[i].pages == 0 && blocks[i].addr % ALIGN == 0
    && End(blocks[i], H) == (if i + 1 < |blocks| then blocks[i + 1].addr else end)
  }

  /** No free neighbours among the first blocks. */
  ghost predicate NoPairs(blocks: seq<Block>, c: nat) {
    forall i :: 0 <= i < c && i + 1 < |blocks| ==> !(blocks[i].free && blocks[i + 1].free)
  }

  lemma Facts(blocks: seq<Block>, base: nat, end: nat, H: nat)
    requires Sound(blocks, 0, base, end, H)
    ensures H > 0 && H % ALIGN == 0
  {
  }

  lemma NewAt(blocks: seq<Block>, base: nat, end: nat, H: nat, k: nat)
    requires Sound(blocks, 0, base, end, H) && k < |blocks| && blocks[k].free
    ensures blocks[k].pages == 0 && blocks[k].addr % ALIGN == 0
    ensures forall b :: b in Busy(blocks) ==> b.addr != blocks[k].addr
  {
    assert ArenaAt(blocks, k, end, H);
    AddressesApart(blocks, 0, base, end, H, k);
  }

  /** A new block at the break. */
  lemma Append(blocks: seq<Block>, base: nat, end: nat, H: nat, b: Block)
    requires Sound(blocks, 0, base, end, H) && (blocks == [] ==> end == base) && end % ALIGN == 0
    requires b.addr == end && !b.free && b.pages == 0
    ensures Sound(blocks + [b], 0, base, End(b, H), H) && b !in Busy(blocks) && Busy(blocks + [b]) == Busy(blocks) + {b}
  {
    var now := blocks + [b];
    forall i | 0 <= i < |now| ensures ArenaAt(now, i, End(b, H), H) {
      if i < |blocks| { assert ArenaAt(blocks, i, end, H); }
    }
    forall i | 0 <= i < |blocks| ensures blocks[i] != b { Within(blocks, 0, base, end, H, i); }
    assert now[|blocks|] == b;
    forall i | 0 <= i < |blocks| && !blocks[i].free ensures blocks[i] in Busy(now) { assert now[i] == blocks[i]; }
  }

  lemma Marked(blocks: seq<Block>, base: nat, end: nat, H: nat, k: nat)
    requires Sound(blocks, 0, base, end, H) && k < |blocks| && !blocks[k].free
    requires forall i :: 0 <= i < |blocks| && i != k ==> blocks[i].addr != blocks[k].addr && blocks[i] != blocks[k]
    ensures Laid(blocks[k := blocks[k].(free := true)], base, end, H)
    ensures Busy(blocks[k := blocks[k].(free := true)]) == Without(Busy(blocks), H, blocks[k].addr + H)
  {
    var now := blocks[k := blocks[k].(free := true)];
    forall i | 0 <= i < |now| ensures LaidAt(now, i, end, H) { assert ArenaAt(blocks, i, end, H); }
    forall i | 0 <= i < |blocks| && i != k && !blocks[i].free
      ensures blocks[i] in Busy(now)
    {
      assert now[i] == blocks[i];
    }
  }

  lemma JoinedLaid(blocks: seq<Block>, base: nat, end: nat, H: nat, c: nat)
    requires Laid(blocks, base, end, H) && NoPairs(blocks, c) && c + 1 < |blocks| && blocks[c].free
    requires blocks[c + 1].free
    ensures Laid(Joined(blocks, c, H), base, end, H) && NoPairs(Joined(blocks, c, H), c) && c < |Joined(blocks, c, H)|
  {
    var now := Joined(blocks, c, H);
    forall i | 0 <= i < |now| ensures LaidAt(now, i, end, H) {
      if i < c {
        assert LaidAt(blocks, i, end, H);
      } else if i == c {
        assert LaidAt(blocks, c, end, H) && LaidAt(blocks, c + 1, end, H);
      } else {
        assert now[i] == blocks[i + 1] && LaidAt(blocks, i + 1, end, H);
      }
    }
  }

  lemma AllMerged(blocks: seq<Block>, base: nat, end: nat, H: nat)
    requires Laid(blocks, base, end, H) && NoPairs(blocks, |blocks| - 1)
    ensures Sound(blocks, 0, base, end, H)
  {
    forall i | 0 <= i < |blocks| ensures ArenaAt(blocks, i, end, H) { assert LaidAt(blocks, i, end, H); }
  }
}
