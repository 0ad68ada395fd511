/** The memory of heap blocks: what the blocks in use hold, how allocators may treat it,
    and what that means for whole runs of a heap. */
module Blocks {
  import opened Tiling

  function AlignUp(n: nat): nat { (n + ALIGN - 1) / ALIGN * ALIGN }

  type Memory = nat -> bv8

  /** The address lies in the header of some block. */
  predicate InHeader(blocks: seq<Block>, H: nat, a: nat) {
    exists i :: 0 <= i < |blocks| && blocks[i].addr <= a < blocks[i].addr + H
  }

  ghost predicate SameBytes(b: Block, H: nat, mem: Memory, now: Memory) {
    forall a: nat :: b.addr + H <= a < End(b, H) ==> now(a) == mem(a)
  }

  /** So many bytes from one address on are what was at another one. */
  ghost predicate Moved(mem: Memory, p: nat, now: Memory, q: nat, n: nat) {
    forall a: nat :: q <= a < q + n ==> now(a) == mem(p + (a - q))
  }

  ghost predicate ElseSame(mem: Memory, now: Memory, q: nat, n: nat) {
    forall a: nat :: !(q <= a < q + n) ==> now(a) == mem(a)
  }

  ghost predicate BytesKept(busy: set<Block>, H: nat, mem: Memory, now: Memory) {
    forall b :: b in busy ==> SameBytes(b, H, mem, now)
  }

  /** No free block is large enough. */
  ghost predicate NoneFits(blocks: seq<Block>, wanted: nat) {
    forall i :: 0 <= i < |blocks| && blocks[i].free ==> blocks[i].size < wanted
  }

  /** The first free block that is large enough. */
  ghost predicate FirstFit(blocks: seq<Block>, k: nat, wanted: nat) {
    && k < |blocks| && blocks[k].free && blocks[k].size >= wanted
    && forall i :: 0 <= i < k && blocks[i].free ==> blocks[i].size < wanted
  }

  /** What is left of a block behind the bytes wanted, if that is worth a block. */
  function Rest(b: Block, H: nat, wanted: nat): seq<Block> {
    if b.pages > 0 || b.size < wanted + H + ALIGN then []
    else [Block(b.addr + H + wanted, b.size - wanted - H, true, 0)]
  }

  /** A block was taken: as much of it as was wanted if the rest is a free block of its own, else all of it. */
  ghost predicate Took(blocks: seq<Block>, now: seq<Block>, H: nat, k: nat, wanted: nat, b: Block) {
    && k < |blocks| && now == blocks[..k] + [b] + Rest(blocks[k], H, wanted) + blocks[k + 1..]
    && b.addr == blocks[k].addr && !b.free && b.pages == blocks[k].pages
    && b.size == if Rest(blocks[k], H, wanted) == [] then blocks[k].size else wanted
  }

  lemma BytesSame(busy: set<Block>, H: nat, mem: Memory)
    ensures BytesKept(busy, H, mem, mem)
  {
  }

  lemma BytesFewer(busy: set<Block>, some: set<Block>, H: nat, mem: Memory, now: Memory)
    requires BytesKept(busy, H, mem, now) && some <= busy
    ensures BytesKept(some, H, mem, now)
  {
  }

  lemma NotHeader(blocks: seq<Block>, paged: nat, base: nat, limit: nat, H: nat, j: nat, a: nat)
    requires Sound(blocks, paged, base, limit, H) && j < |blocks| && blocks[j].addr + H <= a < End(blocks[j], H)
    ensures !InHeader(blocks, H, a)
  {
    forall i | 0 <= i < |blocks| ensures !(blocks[i].addr <= a < blocks[i].addr + H) {
      if i != j { NoOverlap(blocks, paged, base, limit, H, i, j); }
    }
  }

  lemma AddressesApart(blocks: seq<Block>, paged: nat, base: nat, limit: nat, H: nat, k: nat)
    requires Sound(blocks, paged, base, limit, H) && k < |blocks|
    ensures forall i :: 0 <= i < |blocks| && i != k ==> blocks[i].addr != blocks[k].addr && blocks[i] != blocks[k]
  {
    forall i | 0 <= i < |blocks| && i != k
      ensures blocks[i].addr != blocks[k].addr
    {
      NoOverlap(blocks, paged, base, limit, H, i, k);
    }
  }

  lemma MovedNot(mem: Memory, p: nat, n: nat)
    ensures Moved(mem, p, mem, p, n)
  {
  }

  lemma InList(blocks: seq<Block>, b: Block, H: nat)
    requires b in Busy(blocks)
    ensures exists i :: 0 <= i < |blocks| && blocks[i].addr + H == b.addr + H
  {
    var i :| 0 <= i < |blocks| && blocks[i] == b;
    assert blocks[i].addr + H == b.addr + H;
  }

  lemma SameBlock(blocks: seq<Block>, paged: nat, base: nat, limit: nat, H: nat, k: nat, b: Block)
    requires Sound(blocks, paged, base, limit, H) && k < |blocks| && b in Busy(blocks) && blocks[k].addr == b.addr
    ensures blocks[k] == b
  {
    AddressesApart(blocks, paged, base, limit, H, k);
  }

  lemma BusyApart(blocks: seq<Block>, paged: nat, base: nat, limit: nat, H: nat, b: Block)
    requires Sound(blocks, paged, base, limit, H) && b in Busy(blocks)
    ensures Without(Busy(blocks), H, b.addr + H) == Busy(blocks) - {b}
    ensures forall c :: c in Busy(blocks) && c != b ==> Disjoint(b, c, H)
  {
    var i :| 0 <= i < |blocks| && blocks[i] == b;
    AddressesApart(blocks, paged, base, limit, H, i);
    forall c | c in Busy(blocks) && c != b ensures Disjoint(b, c, H) {
      var j :| 0 <= j < |blocks| && blocks[j] == c;
      NoOverlap(blocks, paged, base, limit, H, i, j);
    }
  }

  lemma CopiedBytes(busy: set<Block>, blocks: seq<Block>, paged: nat, base: nat, limit: nat, H: nat, b: Block, n: Block,
                    mem: Memory, mid: Memory, now: Memory)
    requires Sound(blocks, paged, base, limit, H) && Busy(blocks) == busy + {n} && n !in busy && b in busy
    requires b.size <= n.size
    requires BytesKept(busy, H, mem, mid)
    requires Moved(mid, b.addr + H, now, n.addr + H, b.size) && ElseSame(mid, now, n.addr + H, b.size)
    ensures BytesKept(busy, H, mem, now)
    ensures Moved(mem, b.addr + H, now, n.addr + H, b.size)
  {
    BusyApart(blocks, paged, base, limit, H, n);
    forall c | c in busy ensures SameBytes(c, H, mem, now) {
      assert Disjoint(n, c, H) && SameBytes(c, H, mem, mid);
      forall a: nat | c.addr + H <= a < End(c, H) ensures now(a) == mem(a) {
        assert now(a) == mid(a) == mem(a);
      }
    }
    assert SameBytes(b, H, mem, mid);
  }

  lemma Finished(busy: set<Block>, now: set<Block>, H: nat, b: Block, n: Block, mem: Memory, late: Memory, end: Memory)
    requires b in busy && n !in busy && now == busy + {n} - {b} && b.size <= n.size
    requires BytesKept(busy, H, mem, late) && BytesKept(now, H, late, end)
    requires Moved(mem, b.addr + H, late, n.addr + H, b.size)
    ensures BytesKept(busy - {b}, H, mem, end) && n in now && busy - {b} <= now
    ensures Moved(mem, b.addr + H, end, n.addr + H, b.size)
  {
    forall c | c in busy - {b} ensures SameBytes(c, H, mem, end) {
      assert SameBytes(c, H, mem, late) && SameBytes(c, H, late, end);
    }
    assert SameBytes(n, H, late, end);
  }

  lemma UsableIs(blocks: seq<Block>, H: nat, a: nat)
    ensures Usable(Busy(blocks), H, a) <==>
      exists i :: 0 <= i < |blocks| && !blocks[i].free && blocks[i].addr + H <= a < End(blocks[i], H)
  {
    if Usable(Busy(blocks), H, a) {
      var b :| b in Busy(blocks) && b.addr + H <= a < End(b, H);
    }
    if i :| 0 <= i < |blocks| && !blocks[i].free && blocks[i].addr + H <= a < End(blocks[i], H) {
      assert blocks[i] in Busy(blocks);
    }
  }

  lemma NotOwned(blocks: seq<Block>, H: nat, p: nat)
    ensures Owned(Busy(blocks), H, p) <==> exists i :: 0 <= i < |blocks| && !blocks[i].free && blocks[i].addr + H == p
    ensures !Owned(Busy(blocks), H, p) ==> Without(Busy(blocks), H, p) == Busy(blocks)
  {
    if i :| 0 <= i < |blocks| && !blocks[i].free && blocks[i].addr + H == p {
      assert blocks[i] in Busy(blocks);
    }
  }

  lemma InUse(blocks: seq<Block>, i: nat, H: nat, p: nat)
    requires i < |blocks| && !blocks[i].free && blocks[i].addr + H == p
    ensures blocks[i] in Busy(blocks) && Owned(Busy(blocks), H, p)
  {
  }

  lemma InUseAt(blocks: seq<Block>, b: Block, H: nat)
    requires b in Busy(blocks)
    ensures Owned(Busy(blocks), H, b.addr + H)
  {
  }

  lemma BusyAllApart(blocks: seq<Block>, paged: nat, base: nat, limit: nat, H: nat)
    requires Sound(blocks, paged, base, limit, H)
    ensures AllApart(Busy(blocks), H)
  {
    hide Sound, Busy, Without;
    forall b, c | b in Busy(blocks) && c in Busy(blocks) && b != c ensures Disjoint(b, c, H) {
      BusyApart(blocks, paged, base, limit, H, b);
    }
  }

  // ----- runs -----

  /** What a program asks of a heap, and what it writes. */
  datatype Op = Alloc(size: nat) | Release(p: nat) | Resize(p: nat, size: nat) | Write(a: nat, v: bv8)

  /** The blocks in use, the memory, which sizes could not be allocated now, and whether a block of one size can take
      another without moving. */
  datatype Live = Live(busy: set<Block>, mem: Memory, refuses: nat -> bool, holds: (nat, nat) -> bool)

  ghost predicate Owned(busy: set<Block>, H: nat, p: nat) { exists b :: b in busy && b.addr + H == p }

  /** The address is one of some block in use. */
  ghost predicate Usable(busy: set<Block>, H: nat, a: nat) { exists b :: b in busy && b.addr + H <= a < End(b, H) }

  /** No two blocks in use overlap, headers included. */
  ghost predicate AllApart(busy: set<Block>, H: nat) {
    forall b, c :: b in busy && c in busy && b != c ==> Disjoint(b, c, H)
  }

  /** A new block, large enough and aligned, next to those in use. */
  ghost predicate Handed(busy: set<Block>, now: set<Block>, H: nat, q: nat, size: nat) {
    exists n :: n !in busy && now == busy + {n} && n.addr + H == q && size <= n.size && q % ALIGN == 0
  }

  /** A block became another one with the same bytes in front, or stayed. */
  ghost predicate Became(a: Live, b: Live, H: nat, x: Block, q: nat, size: nat) {
    && x in a.busy && BytesKept(a.busy - {x}, H, a.mem, b.mem) && Moved(a.mem, x.addr + H, b.mem, q, x.size)
    && exists n ::
      (n == x || n !in a.busy) && b.busy == a.busy - {x} + {n} && n.addr + H == q && size <= n.size && x.size <= n.size
  }

  ghost predicate Allocated(H: nat, size: nat, q: nat, a: Live, b: Live) {
    && BytesKept(a.busy, H, a.mem, b.mem) && (q == 0 <==> a.refuses(size))
    && if q == 0 then b.busy == a.busy else Handed(a.busy, b.busy, H, q, size)
  }

  ghost predicate Released(H: nat, p: nat, q: nat, a: Live, b: Live) {
    q == 0 && b.busy == Without(a.busy, H, p) && BytesKept(b.busy, H, a.mem, b.mem)
  }

  /** A block was made larger or moved; it stays as it is if it cannot take the size and no other can be had. */
  ghost predicate Resized(H: nat, size: nat, q: nat, a: Live, b: Live, x: Block) {
    && (q == 0 <==> a.refuses(size) && !a.holds(x.size, size))
    && if q == 0 then b.busy == a.busy && BytesKept(a.busy, H, a.mem, b.mem) else Became(a, b, H, x, q, size)
  }

  /** Exactly what a call did to the blocks in use and to their bytes. */
  ghost predicate Did(H: nat, op: Op, q: nat, a: Live, b: Live) {
    match op
    case Alloc(size) => Allocated(H, size, q, a, b)
    case Release(p) => Released(H, p, q, a, b)
    case Resize(p, size) =>
      if p == 0 then Allocated(H, size, q, a, b)
      else if !Owned(a.busy, H, p) then q == 0 && b.busy == a.busy && BytesKept(a.busy, H, a.mem, b.mem)
      else if size == 0 then Released(H, p, q, a, b)
      else exists x: Block :: x in a.busy && x.addr + H == p && Resized(H, size, q, a, b, x)
    case Write(at, v) =>
      && q == 0 && b.busy == a.busy
      && forall i: nat :: b.mem(i) == if i == at && Usable(a.busy, H, at) then v else a.mem(i)
  }

  ghost predicate Ran(H: nat, ops: seq<Op>, results: seq<nat>, trace: seq<Live>) {
    && |results| == |ops| && |trace| == |ops| + 1
    && (forall i :: 0 <= i < |ops| ==> Did(H, ops[i], results[i], trace[i], trace[i + 1]))
    && forall i :: 0 <= i <= |ops| ==> AllApart(trace[i].busy, H)
  }

  /** An operation that frees, resizes or writes the block. */
  ghost predicate Names(op: Op, b: Block, H: nat) {
    || (op.Release? && op.p == b.addr + H)
    || (op.Resize? && op.p == b.addr + H)
    || (op.Write? && b.addr + H <= op.a < End(b, H))
  }

  /** A block in use and its bytes stay as they are until the program itself frees,
      resizes or writes it, whatever else it allocates, frees, moves and writes. */
  lemma {:induction false} LiveKept(H: nat, ops: seq<Op>, results: seq<nat>, trace: seq<Live>, from: nat, till: nat,
                                    b: Block)
    requires Ran(H, ops, results, trace) && from <= till <= |ops| && b in trace[from].busy && H > 0
    requires forall i :: from <= i < till ==> !Names(ops[i], b, H)
    ensures b in trace[till].busy && SameBytes(b, H, trace[from].mem, trace[till].mem)
    decreases till
  {
    hide Did, Names;
    if from < till {
      LiveKept(H, ops, results, trace, from, till - 1, b);
      StepKept(H, ops[till - 1], results[till - 1], trace[till - 1], trace[till], b);
    }
  }

  lemma StepKept(H: nat, op: Op, q: nat, a: Live, b: Live, x: Block)
    requires Did(H, op, q, a, b) && x in a.busy && AllApart(a.busy, H) && !Names(op, x, H) && H > 0
    ensures x in b.busy && SameBytes(x, H, a.mem, b.mem)
  {
    hide Moved, AllApart;
  }

  /** What a successful resize leaves: the old bytes in front of a block that is large
      enough, apart from every other block. */
  lemma ResizeKeeps(H: nat, ops: seq<Op>, results: seq<nat>, trace: seq<Live>, i: nat, b: Block)
    requires Ran(H, ops, results, trace) && i < |ops| && H > 0 && ops[i].Resize? && ops[i].size > 0 && results[i] != 0
    requires b in trace[i].busy && b.addr + H == ops[i].p > 0
    ensures exists n :: n in trace[i + 1].busy && n.addr + H == results[i] && ops[i].size <= n.size && b.size <= n.size
    ensures Moved(trace[i].mem, b.addr + H, trace[i + 1].mem, results[i], b.size)
    ensures results[i] != ops[i].p ==> !Owned(trace[i + 1].busy, H, ops[i].p)
  {
    hide Moved;
    assert Did(H, ops[i], results[i], trace[i], trace[i + 1]) && AllApart(trace[i].busy, H);
    var x: Block :| x in trace[i].busy && x.addr + H == ops[i].p && Resized(H, ops[i].size, results[i], trace[i],
                                                                            trace[i + 1], x);
    assert x == b || Disjoint(x, b, H);
  }
}
