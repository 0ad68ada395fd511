/** The kernel heap of src/mm/kheap.c: first fit over a list of blocks, split on
    allocation, merged with free neighbours on release. */
module Heap {
  import opened Tiling
  import opened Blocks

  class KernelHeap {
    /** The size of a header, rounded up. */
    const H: nat
    /** The arena, if there is one. */
    const base: nat
    const limit: nat
    var blocks: seq<Block>
    ghost var paged: nat
    /** Every byte of memory; headers have contents nobody relies on. */
    var mem: Memory
    const noise: (nat, nat) -> bv8
    /** What the page allocator answers. */
    const region: nat -> nat
    var asked: nat

    ghost predicate Valid()
      reads this
    {
      Sound(blocks, paged, base, limit, H)
    }

    ghost function View(): Live
      reads this
    {
      Live(Busy(blocks), mem, Refuses(blocks, asked), (had: nat, wanted: nat) => wanted <= had)
    }

    /** What cannot be allocated: nothing, and what no free block and no new pages hold. */
    ghost function Refuses(blocks: seq<Block>, n: nat): nat -> bool {
      (size: nat) => size == 0 || (NoneFits(blocks, AlignUp(size)) && !Offered(blocks, AlignUp(size), n))
    }

    /** What the page allocator would give can be used: pages that nothing else has. */
    ghost predicate Offered(blocks: seq<Block>, wanted: nat, n: nat) {
      var at, pages := region(n), PagesFor(H, wanted);
      && at != 0 && at % PAGE == 0 && pages * PAGE >= H
      && Clear(blocks, Block(at, pages * PAGE - H, false, pages), base, limit, H)
    }

    /** kheap_init: one free block, if the arena is large enough for one. */
    constructor (start: nat, size: nat, header: nat, mem: Memory, noise: (nat, nat) -> bv8, region: nat -> nat)
      requires header > 0 && header % ALIGN == 0
      ensures Valid() && Busy(blocks) == {} && paged == 0 && |blocks| <= 1 && this.H == header
      ensures blocks != [] <==> start != 0 && size > H + ALIGN
      ensures blocks != [] ==>
        && AlignUp(start) == base && limit == start + size && base + H <= limit
        && blocks == [Block(base, limit - base - H, true, 0)]
    {
      H, this.noise, this.region, asked, paged, this.mem := header, noise, region, 0, 0, mem;
      var first := AlignUp(start);
      base, limit := first, start + size;
      blocks := [];
      if start != 0 && size > header + ALIGN && first - start < size && size - (first - start) > header {
        blocks := [Block(first, size - (first - start) - header, true, 0)];
      }
    }

    /** The headers of the list are written; no block's own bytes are. */
    method WriteHeaders()
      requires Valid()
      modifies this`mem
      ensures BytesKept(Busy(blocks), H, old(mem), mem)
    {
      var m, list, h, k := mem, blocks, H, asked;
      mem := (a: nat) => if InHeader(list, h, a) then noise(k, a) else m(a);
      forall b | b in Busy(blocks) ensures SameBytes(b, H, old(mem), mem) {
        var j :| 0 <= j < |blocks| && blocks[j] == b;
        forall a | b.addr + H <= a < End(b, H)
          ensures mem(a) == old(mem)(a)
        {
          NotHeader(blocks, paged, base, limit, H, j, a);
        }
      }
    }

    /** kmalloc: a block nobody has, large enough and aligned; nothing only when no
        block fits and the page allocator has nothing. */
    method Malloc(size: nat) returns (p: nat, ghost b: Block)
      requires Valid()
      modifies this
      ensures Valid() && BytesKept(old(Busy(blocks)), H, old(mem), mem)
      ensures p == 0 ==> Busy(blocks) == old(Busy(blocks)) && blocks == old(blocks)
      ensures p == 0 <==> size == 0 || (NoneFits(old(blocks), AlignUp(size)) && !Offered(old(blocks), AlignUp(size),
                                                                                         old(asked)))
      ensures p != 0 ==> size > 0 && p == b.addr + H && p % ALIGN == 0 && size <= b.size && !b.free
      ensures p != 0 ==> b !in old(Busy(blocks)) && Busy(blocks) == old(Busy(blocks)) + {b}
      ensures p != 0 && !NoneFits(old(blocks), AlignUp(size)) ==>
        b.size < AlignUp(size) + H + ALIGN &&
          exists k :: FirstFit(old(blocks), k, AlignUp(size)) && Took(old(blocks), blocks, H, k, AlignUp(size), b)
      ensures p != 0 && NoneFits(old(blocks), AlignUp(size)) ==>
        blocks == [b] + old(blocks) && b.size + H == b.pages * PAGE < AlignUp(size) + H + PAGE
      ensures |blocks| - paged >= 1 <==> |old(blocks)| - old(paged) >= 1
    {
      hide Sound, Busy, BytesKept, Clear;
      b := Block(0, 0, true, 0);
      BytesSame(Busy(blocks), H, mem);
      if size == 0 { return 0, b; }
      var wanted := AlignUp(size);
      var k := 0;
      while k < |blocks| && (!blocks[k].free || blocks[k].size < wanted)
        invariant 0 <= k <= |blocks| && forall i :: 0 <= i < k && blocks[i].free ==> blocks[i].size < wanted
      {
        k := k + 1;
      }
      if k < |blocks| {
        assert FirstFit(blocks, k, wanted);
        p, b := TakeAt(k, wanted);
        return;
      }
      p, b := FromPages(wanted);
    }

    method TakeAt(k: nat, wanted: nat) returns (p: nat, ghost b: Block)
      requires Valid() && k < |blocks| && blocks[k].free && wanted <= blocks[k].size && wanted % ALIGN == 0
      modifies this`blocks, this`mem
      ensures Valid() && BytesKept(old(Busy(blocks)), H, old(mem), mem)
      ensures p == b.addr + H && p % ALIGN == 0 && p > 0 && wanted <= b.size && !b.free
      ensures b !in old(Busy(blocks)) && Busy(blocks) == old(Busy(blocks)) + {b}
      ensures |blocks| > paged && |old(blocks)| > paged
      ensures Took(old(blocks), blocks, H, k, wanted, b) && b.pages == 0 && b.size < wanted + H + ALIGN
    {
      hide Sound, Busy, BytesKept;
      FreeIsArena(blocks, paged, base, limit, H, k);
      BlockKinds(blocks, paged, base, limit, H, k);
      TakeBlock(blocks, paged, base, limit, H, k, wanted);
      BusyTaken(blocks, k, wanted, H);
      blocks := Split(blocks, k, wanted, H);
      blocks := blocks[k := blocks[k].(free := false)];
      b := blocks[k];
      assert blocks == old(blocks)[..k] + [b] + Rest(old(blocks)[k], H, wanted) + old(blocks)[k + 1..];
      NewBlock(old(blocks), paged, base, limit, H, k, b);
      WriteHeaders();
      BytesFewer(Busy(blocks), old(Busy(blocks)), H, old(mem), mem);
      p := blocks[k].addr + H;
    }

    method FromPages(wanted: nat) returns (p: nat, ghost b: Block)
      requires Valid() && wanted > 0
      modifies this
      ensures Valid() && BytesKept(old(Busy(blocks)), H, old(mem), mem)
      ensures p == 0 ==> blocks == old(blocks)
      ensures p == 0 <==> !Offered(old(blocks), wanted, old(asked))
      ensures p != 0 ==> p == b.addr + H && p % ALIGN == 0 && wanted <= b.size && !b.free
      ensures p != 0 ==> b !in old(Busy(blocks)) && Busy(blocks) == old(Busy(blocks)) + {b}
      ensures p != 0 ==> blocks == [b] + old(blocks) && b.size + H == b.pages * PAGE < wanted + H + PAGE
      ensures |blocks| - paged == |old(blocks)| - old(paged)
    {
      hide Sound, Busy, BytesKept, Clear, Paged, PagesFor;
      b := Block(0, 0, true, 0);
      BytesSame(Busy(blocks), H, mem);
      HeaderSize(blocks, paged, base, limit, H);
      var pages := PagesFor(H, wanted);
      PagesFit(H, wanted);
      var at := region(asked);
      asked := asked + 1;
      if at == 0 || at % PAGE != 0 { return 0, b; }
      var block := Block(at, pages * PAGE - H, false, pages);
      if !Clear(blocks, block, base, limit, H) { return 0, b; }
      b := block;
      PagedNew(blocks, paged, base, limit, H, b);
      PushBlock(blocks, paged, base, limit, H, b);
      BusyPushed(blocks, b);
      blocks, paged := [block] + blocks, paged + 1;
      WriteHeaders();
      BytesFewer(Busy(blocks), old(Busy(blocks)), H, old(mem), mem);
      return at + H, b;
    }

    /** kfree: the block is nobody's any more; a block already free stays so. */
    method Free(p: nat)
      requires Valid() && (p == 0 || exists i :: 0 <= i < |blocks| && blocks[i].addr + H == p)
      modifies this`blocks, this`mem, this`paged
      ensures Valid()
      ensures Busy(blocks) == if p == 0 then old(Busy(blocks)) else Without(old(Busy(blocks)), H, p)
      ensures BytesKept(Busy(blocks), H, old(mem), mem)
      ensures |blocks| - paged >= 1 <==> |old(blocks)| - old(paged) >= 1
    {
      hide Sound, BytesKept;
      BytesSame(Busy(blocks), H, mem);
      if p == 0 { return; }
      var k :| 0 <= k < |blocks| && blocks[k].addr + H == p;
      AddressesApart(blocks, paged, base, limit, H, k);
      if blocks[k].free { return; }
      ghost var gone := blocks[k];
      BlockKinds(blocks, paged, base, limit, H, k);
      if blocks[k].pages > 0 {
        DropBlock(blocks, paged, base, limit, H, k);
        BusyDropped(blocks, k);
        blocks, paged := blocks[..k] + blocks[k + 1..], paged - 1;
      } else {
        FreeBlock(blocks, paged, base, limit, H, k);
        BusyFreed(blocks, k, H);
        blocks := Freed(blocks, k, H);
      }
      WriteHeaders();
    }

    /** krealloc: the old bytes at the start of a block that is large enough, or the
        old block untouched. */
    method Realloc(p: nat, size: nat, ghost b: Block) returns (q: nat)
      requires Valid() && (p == 0 || (b in Busy(blocks) && b.addr + H == p))
      modifies this
      ensures Valid() && Did(H, Resize(p, size), q, old(View()), View())
      ensures p != 0 && 0 < size <= b.size ==> q == p
      ensures p != 0 && size > 0 ==>
        (q == 0 <==> b.size < size && NoneFits(old(blocks), AlignUp(size)) && !Offered(old(blocks), AlignUp(size),
                                                                                       old(asked)))
      ensures |blocks| - paged >= 1 <==> |old(blocks)| - old(paged) >= 1
    {
      hide Sound, BytesKept, Busy, Moved, Without, Clear;
      if p == 0 {
        ghost var n;
        q, n := Malloc(size);
        return;
      }
      InList(blocks, b, H);
      BusyApart(blocks, paged, base, limit, H, b);
      if size == 0 {
        Free(p);
        return 0;
      }
      var k :| 0 <= k < |blocks| && blocks[k].addr + H == p;
      SameBlock(blocks, paged, base, limit, H, k, b);
      if blocks[k].size >= size {
        BytesSame(old(Busy(blocks)) - {b}, H, mem);
        MovedNot(mem, p, b.size);
        HeaderSize(blocks, paged, base, limit, H);
        assert Busy(blocks) == Busy(blocks) - {b} + {b};
        return p;
      }
      q := Relocate(p, blocks[k].size, size, b);
    }

    method Relocate(p: nat, oldSize: nat, size: nat, ghost b: Block) returns (q: nat)
      requires Valid() && b in Busy(blocks) && b.addr + H == p && b.size == oldSize < size
      modifies this
      ensures Valid()
      ensures q == 0 ==> Busy(blocks) == old(Busy(blocks)) && BytesKept(old(Busy(blocks)), H, old(mem), mem)
      ensures q != 0 ==> Became(old(View()), View(), H, b, q, size)
      ensures q == 0 <==> NoneFits(old(blocks), AlignUp(size)) && !Offered(old(blocks), AlignUp(size), old(asked))
      ensures |blocks| - paged >= 1 <==> |old(blocks)| - old(paged) >= 1
    {
      hide Sound, BytesKept, Busy, Moved, ElseSame, Clear, Without;
      HeaderSize(blocks, paged, base, limit, H);
      ghost var n;
      q, n := Malloc(size);
      if q == 0 { return; }
      ghost var mid := mem;
      Copy(q, p, oldSize);
      CopiedBytes(old(Busy(blocks)), blocks, paged, base, limit, H, b, n, old(mem), mid, mem);
      InList(blocks, b, H);
      BusyApart(blocks, paged, base, limit, H, b);
      ghost var late := mem;
      Free(p);
      Finished(old(Busy(blocks)), Busy(blocks), H, b, n, old(mem), late, mem);
      assert Busy(blocks) == old(Busy(blocks)) - {b} + {n};
    }

    /** memcpy. */
    method Copy(q: nat, p: nat, n: nat)
      modifies this`mem
      ensures Moved(old(mem), p, mem, q, n) && ElseSame(old(mem), mem, q, n)
    {
      var m := mem;
      mem := (a: nat) => if q <= a < q + n then m(p + (a - q)) else m(a);
    }

    // ----- runs -----

    /** A program writes a byte of a block it has. */
    method Store(at: nat, v: bv8)
      requires Valid()
      modifies this`mem
      ensures Did(H, Write(at, v), 0, old(View()), View())
    {
      hide Sound, Busy;
      var m := mem;
      if exists i :: 0 <= i < |blocks| && !blocks[i].free && blocks[i].addr + H <= at < End(blocks[i], H) {
        UsableIs(blocks, H, at);
        mem := (a: nat) => if a == at then v else m(a);
      } else {
        UsableIs(blocks, H, at);
      }
    }

    method Do(op: Op) returns (q: nat)
      requires Valid()
      modifies this
      ensures Valid() && Did(H, op, q, old(View()), View())
      ensures |blocks| - paged >= 1 <==> |old(blocks)| - old(paged) >= 1
    {
      hide Sound, Busy, BytesKept, Clear, Without;
      BytesSame(Busy(blocks), H, mem);
      q := 0;
      match op
      case Alloc(size) =>
        ghost var n;
        q, n := Malloc(size);
      case Release(p) =>
        NotOwned(blocks, H, p);
        HeaderSize(blocks, paged, base, limit, H);
        if exists i :: 0 <= i < |blocks| && blocks[i].addr + H == p { Free(p); }
      case Resize(p, size) =>
        if p == 0 {
          q := Realloc(0, size, Block(0, 0, true, 0));
        } else if exists i :: 0 <= i < |blocks| && !blocks[i].free && blocks[i].addr + H == p {
          ghost var i :| 0 <= i < |blocks| && !blocks[i].free && blocks[i].addr + H == p;
          InUse(blocks, i, H, p);
          q := Realloc(p, size, blocks[i]);
        } else {
          NotOwned(blocks, H, p);
        }
      case Write(at, v) =>
        Store(at, v);
    }

    /** Any sequence of calls and writes: no block in use ever overlaps another, each call
        does what it should to the blocks and their bytes, and when nothing is in use any
        more, the arena is one free block again. */
    method Run(ops: seq<Op>) returns (results: seq<nat>, ghost trace: seq<Live>)
      requires Valid()
      modifies this
      ensures Valid() && Ran(H, ops, results, trace) && trace[0] == old(View()) && trace[|ops|] == View()
      ensures Busy(blocks) == {} && |old(blocks)| > old(paged) ==>
        base + H <= limit && blocks == [Block(base, limit - base - H, true, 0)]
    {
      hide Sound, Did, View, AllApart;
      results, trace := [], [View()];
      BusyAllApart(blocks, paged, base, limit, H);
      Shows();
      for k := 0 to |ops|
        invariant Valid() && (|blocks| - paged >= 1 <==> |old(blocks)| - old(paged) >= 1)
        invariant |results| == k && |trace| == k + 1 && trace[0] == old(View()) && trace[k] == View()
        invariant forall i :: 0 <= i < k ==> Did(H, ops[i], results[i], trace[i], trace[i + 1])
        invariant forall i :: 0 <= i <= k ==> AllApart(trace[i].busy, H)
      {
        var q := Do(ops[k]);
        BusyAllApart(blocks, paged, base, limit, H);
        Shows();
        results, trace := results + [q], trace + [View()];
      }
      if Busy(blocks) == {} && |blocks| > paged { EverythingFreed(blocks, paged, base, limit, H); }
    }

    lemma Shows()
      ensures View().busy == Busy(blocks)
    {
    }
  }

  lemma EverythingFreed(blocks: seq<Block>, paged: nat, base: nat, limit: nat, H: nat)
    requires Sound(blocks, paged, base, limit, H) && Busy(blocks) == {} && paged < |blocks|
    ensures base + H <= limit && blocks == [Block(base, limit - base - H, true, 0)]
  {
    forall i | 0 <= i < |blocks| ensures blocks[i].free {
      FreeOrBusy(blocks, i);
    }
    if paged > 0 { PagedBusy(blocks, paged, base, limit, H, 0); }
    OneBlockLeft(blocks, paged, base, limit, H);
  }

  /** No block overlaps the new one or the arena. */
  predicate Clear(blocks: seq<Block>, b: Block, base: nat, limit: nat, H: nat) {
    && (End(b, H) <= base || limit <= b.addr)
    && forall i :: 0 <= i < |blocks| ==> End(b, H) <= blocks[i].addr || End(blocks[i], H) <= b.addr
  }

  lemma FreeIsArena(blocks: seq<Block>, paged: nat, base: nat, limit: nat, H: nat, k: nat)
    requires Sound(blocks, paged, base, limit, H) && k < |blocks| && blocks[k].free
    ensures paged <= k
  {
    if k < paged { PagedBusy(blocks, paged, base, limit, H, k); }
  }

  lemma PagedBusy(blocks: seq<Block>, paged: nat, base: nat, limit: nat, H: nat, k: nat)
    requires Sound(blocks, paged, base, limit, H) && k < paged
    ensures !blocks[k].free
  {
    assert Paged(blocks[k], base, limit, H);
  }

  lemma HeaderSize(blocks: seq<Block>, paged: nat, base: nat, limit: nat, H: nat)
    requires Sound(blocks, paged, base, limit, H)
    ensures H > 0 && H % ALIGN == 0
  {
  }

  lemma BlockKinds(blocks: seq<Block>, paged: nat, base: nat, limit: nat, H: nat, k: nat)
    requires Sound(blocks, paged, base, limit, H) && k < |blocks|
    ensures paged <= |blocks| && (blocks[k].pages > 0 <==> k < paged)
  {
    if k < paged { assert Paged(blocks[k], base, limit, H); } else { assert ArenaAt(blocks, k, limit, H); }
  }

  lemma NewBlock(blocks: seq<Block>, paged: nat, base: nat, limit: nat, H: nat, k: nat, b: Block)
    requires Sound(blocks, paged, base, limit, H) && paged <= k < |blocks| && blocks[k].free && b.addr == blocks[k].addr
    ensures b.addr % ALIGN == 0 && H > 0 && H % ALIGN == 0 && b !in Busy(blocks)
  {
    assert ArenaAt(blocks, k, limit, H);
    AddressesApart(blocks, paged, base, limit, H, k);
  }

  /** How many pages hold a header and the bytes wanted. */
  function PagesFor(H: nat, wanted: nat): nat { (H + wanted + PAGE - 1) / PAGE }

  lemma PagesFit(H: nat, wanted: nat)
    requires H > 0
    ensures PagesFor(H, wanted) > 0 && H + wanted + PAGE > PagesFor(H, wanted) * PAGE >= H + wanted
  {
  }

  lemma PagedNew(blocks: seq<Block>, paged: nat, base: nat, limit: nat, H: nat, b: Block)
    requires Sound(blocks, paged, base, limit, H) && Clear(blocks, b, base, limit, H)
    requires b.addr % PAGE == 0 && b.pages > 0 && !b.free && H + b.size == b.pages * PAGE
    ensures Paged(b, base, limit, H) && b !in Busy(blocks) && (forall i :: 0 <= i < paged ==> Disjoint(b, blocks[i], H))
    ensures b.addr % ALIGN == 0
  {
  }
}
