/** Blocks of memory laid end to end: the arena part of a heap list, and the
    separately backed blocks in front of it. */
module Tiling {
  const ALIGN := 16
  const PAGE := 4096

  /** One header of the list. Blocks with pages have memory of their own; the
      others lie in the arena. */
  datatype Block = Block(addr: nat, size: nat, free: bool, pages: nat)

  function End(b: Block, H: nat): nat { b.addr + H + b.size }

  /** The memory between two limits belongs to nobody else. */
  ghost predicate Outside(b: Block, base: nat, limit: nat, H: nat) { End(b, H) <= base || limit <= b.addr }

  ghost predicate Disjoint(a: Block, b: Block, H: nat) { End(a, H) <= b.addr || End(b, H) <= a.addr }

  /** From some place of the list on: arena blocks that follow each other without
      gaps up to the limit, no two neighbours free. */
  ghost predicate Tiles(blocks: seq<Block>, from: nat, base: nat, limit: nat, H: nat) {
    && from <= |blocks|
    && (forall i :: from <= i < |blocks| ==> ArenaAt(blocks, i, limit, H))
    && (from < |blocks| ==> blocks[from].addr == base)
  }

  ghost predicate ArenaAt(blocks: seq<Block>, i: nat, limit: nat, H: nat)
    requires i < |blocks|
  {
    && blocks[i].pages == 0 && blocks[i].addr % ALIGN == 0
    && End(blocks[i], H) == (if i + 1 < |blocks| then blocks[i + 1].addr else limit)
    && (i + 1 < |blocks| && blocks[i].free ==> !blocks[i + 1].free)
  }

  ghost predicate Paged(b: Block, base: nat, limit: nat, H: nat) {
    b.pages > 0 && !b.free && b.addr % ALIGN == 0 && H + b.size == b.pages * PAGE && Outside(b, base, limit, H)
  }

  ghost predicate Sound(blocks: seq<Block>, paged: nat, base: nat, limit: nat, H: nat) {
    && paged <= |blocks| && H > 0 && H % ALIGN == 0
    && (forall i :: 0 <= i < paged ==> Paged(blocks[i], base, limit, H))
    && (forall i, j :: 0 <= i < j < paged ==> Disjoint(blocks[i], blocks[j], H))
    && Tiles(blocks, paged, base, limit, H)
  }

  /** Later arena blocks lie higher, and all of them inside the arena. */
  lemma {:induction false} Higher(blocks: seq<Block>, from: nat, base: nat, limit: nat, H: nat, i: nat, j: nat)
    requires Tiles(blocks, from, base, limit, H) && H > 0 && from <= i < j < |blocks|
    ensures End(blocks[i], H) <= blocks[j].addr
    decreases j
  {
    assert ArenaAt(blocks, j - 1, limit, H);
    if i < j - 1 { Higher(blocks, from, base, limit, H, i, j - 1); }
  }

  lemma Within(blocks: seq<Block>, from: nat, base: nat, limit: nat, H: nat, i: nat)
    requires Tiles(blocks, from, base, limit, H) && H > 0 && from <= i < |blocks|
    ensures base <= blocks[i].addr && End(blocks[i], H) <= limit
  {
    assert ArenaAt(blocks, i, limit, H);
    if from < i { Higher(blocks, from, base, limit, H, from, i); }
    var last := |blocks| - 1;
    assert ArenaAt(blocks, last, limit, H);
    if i < last { Higher(blocks, from, base, limit, H, i, last); }
  }

  /** No two blocks of the heap overlap, headers included. */
  lemma NoOverlap(blocks: seq<Block>, paged: nat, base: nat, limit: nat, H: nat, i: nat, j: nat)
    requires Sound(blocks, paged, base, limit, H) && i < |blocks| && j < |blocks| && i != j
    ensures Disjoint(blocks[i], blocks[j], H)
  {
    if i >= paged { Within(blocks, paged, base, limit, H, i); }
    if j >= paged { Within(blocks, paged, base, limit, H, j); }
    if paged <= i < j { Higher(blocks, paged, base, limit, H, i, j); }
    if paged <= j < i { Higher(blocks, paged, base, limit, H, j, i); }
    if i < paged { assert Paged(blocks[i], base, limit, H); }
    if j < paged { assert Paged(blocks[j], base, limit, H); }
  }

  /** With every arena block free there is only one, and it is the whole arena. */
  lemma OneBlockLeft(blocks: seq<Block>, paged: nat, base: nat, limit: nat, H: nat)
    requires Sound(blocks, paged, base, limit, H) && paged < |blocks|
    requires forall i :: paged <= i < |blocks| ==> blocks[i].free
    ensures |blocks| == paged + 1 && base + H <= limit && blocks[paged] == Block(base, limit - base - H, true, 0)
  {
    assert ArenaAt(blocks, paged, limit, H);
  }

  // ----- splitting and merging -----

  function Split(blocks: seq<Block>, k: nat, wanted: nat, H: nat): seq<Block>
    requires k < |blocks|
  {
    var b := blocks[k];
    if b.pages > 0 || b.size < wanted + H + ALIGN then blocks
    else blocks[..k] + [b.(size := wanted), Block(b.addr + H + wanted, b.size - wanted - H, true, 0)] + blocks[k + 1..]
  }

  /** Taking a free block, split if enough is left over. */
  lemma TakeBlock(blocks: seq<Block>, paged: nat, base: nat, limit: nat, H: nat, k: nat, wanted: nat)
    requires Sound(blocks, paged, base, limit, H) && paged <= k < |blocks| && blocks[k].free
    requires wanted <= blocks[k].size && wanted % ALIGN == 0
    ensures k < |Split(blocks, k, wanted, H)|
    ensures var now := Split(blocks, k, wanted, H);
      Sound(now[k := now[k].(free := false)], paged, base, limit, H)
  {
    var b := blocks[k];
    assert ArenaAt(blocks, k, limit, H);
    if b.size < wanted + H + ALIGN { TakeWhole(blocks, paged, base, limit, H, k); } else
      { TakePart(blocks, paged, base, limit, H, k, wanted); }
  }

  lemma TakeWhole(blocks: seq<Block>, paged: nat, base: nat, limit: nat, H: nat, k: nat)
    requires Sound(blocks, paged, base, limit, H) && paged <= k < |blocks|
    ensures Sound(blocks[k := blocks[k].(free := false)], paged, base, limit, H)
  {
    var now := blocks[k := blocks[k].(free := false)];
    forall i | paged <= i < |now| ensures ArenaAt(now, i, limit, H) { assert ArenaAt(blocks, i, limit, H); }
  }

  lemma TakePart(blocks: seq<Block>, paged: nat, base: nat, limit: nat, H: nat, k: nat, wanted: nat)
    requires Sound(blocks, paged, base, limit, H) && paged <= k < |blocks| && blocks[k].free
    requires blocks[k].size >= wanted + H + ALIGN && wanted % ALIGN == 0 && blocks[k].pages == 0
    ensures var now := Split(blocks, k, wanted, H);
      k < |now| && Sound(now[k := now[k].(free := false)], paged, base, limit, H)
  {
    var split := Split(blocks, k, wanted, H);
    var now := split[k := split[k].(free := false)];
    assert |now| == |blocks| + 1;
    forall i | 0 <= i < k ensures now[i] == blocks[i] {}
    forall i | k + 2 <= i < |now| ensures now[i] == blocks[i - 1] {}
    assert ArenaAt(blocks, k, limit, H);
    forall i | paged <= i < |now| ensures ArenaAt(now, i, limit, H) {
      if i < k {
        assert ArenaAt(blocks, i, limit, H);
      } else if i > k + 1 {
        assert ArenaAt(blocks, i - 1, limit, H);
      }
    }
    FrontKept(blocks, now, paged, base, limit, H);
  }

  lemma FrontKept(blocks: seq<Block>, now: seq<Block>, paged: nat, base: nat, limit: nat, H: nat)
    requires Sound(blocks, paged, base, limit, H) && paged <= |now|
    requires forall i :: 0 <= i < paged ==> now[i] == blocks[i]
    ensures forall i :: 0 <= i < paged ==> Paged(now[i], base, limit, H)
    ensures forall i, j :: 0 <= i < j < paged ==> Disjoint(now[i], now[j], H)
  {
  }

  /** Two neighbours become one. */
  function Joined(blocks: seq<Block>, k: nat, H: nat): seq<Block>
    requires k + 1 < |blocks|
  {
    blocks[..k] + [blocks[k].(size := blocks[k].size + H + blocks[k + 1].size)] + blocks[k + 2..]
  }

  /** The block at a place and its right neighbour, if that is free. */
  function JoinRight(blocks: seq<Block>, k: nat, H: nat): seq<Block>
    requires k < |blocks|
  {
    if k + 1 < |blocks| && blocks[k + 1].free && blocks[k + 1].pages == 0 && End(blocks[k], H) == blocks[k + 1].addr
    then Joined(blocks, k, H) else blocks
  }

  function JoinLeft(blocks: seq<Block>, k: nat, H: nat): seq<Block>
    requires k < |blocks|
  {
    if k > 0 && blocks[k - 1].free && blocks[k - 1].pages == 0 && End(blocks[k - 1], H) == blocks[k].addr
    then Joined(blocks, k - 1, H) else blocks
  }

  /** merge_arena_neighbors after the block was marked free. */
  function Freed(blocks: seq<Block>, k: nat, H: nat): seq<Block>
    requires k < |blocks|
  {
    var right := JoinRight(blocks[k := blocks[k].(free := true)], k, H);
    if k < |right| then JoinLeft(right, k, H) else right
  }

  /** Tiled except that the block at one place may be free next to free ones. */
  ghost predicate Loose(blocks: seq<Block>, from: nat, base: nat, limit: nat, H: nat, k: nat) {
    && from <= k < |blocks| && blocks[k].free && blocks[from].addr == base
    && forall i :: from <= i < |blocks| ==> LooseAt(blocks, i, limit, H, k)
  }

  ghost predicate LooseAt(blocks: seq<Block>, i: nat, limit: nat, H: nat, k: nat)
    requires i < |blocks|
  {
    && blocks[i].pages == 0 && blocks[i].addr % ALIGN == 0
    && End(blocks[i], H) == (if i + 1 < |blocks| then blocks[i + 1].addr else limit)
    && (i + 1 < |blocks| && blocks[i].free && i != k && i + 1 != k ==> !blocks[i + 1].free)
  }

  lemma FreeLoose(blocks: seq<Block>, from: nat, base: nat, limit: nat, H: nat, k: nat)
    requires Tiles(blocks, from, base, limit, H) && from <= k < |blocks|
    ensures Loose(blocks[k := blocks[k].(free := true)], from, base, limit, H, k)
  {
    var now := blocks[k := blocks[k].(free := true)];
    forall i | from <= i < |now| ensures LooseAt(now, i, limit, H, k) { assert ArenaAt(blocks, i, limit, H); }
  }

  lemma RightDone(blocks: seq<Block>, from: nat, base: nat, limit: nat, H: nat, k: nat)
    requires Loose(blocks, from, base, limit, H, k)
    ensures k < |JoinRight(blocks, k, H)| && Loose(JoinRight(blocks, k, H), from, base, limit, H, k)
    ensures var now := JoinRight(blocks, k, H);
      now[..k] == blocks[..k] && (k + 1 < |now| ==> !now[k + 1].free)
  {
    assert LooseAt(blocks, k, limit, H, k);
    var now := JoinRight(blocks, k, H);
    if k + 1 < |blocks| {
      assert LooseAt(blocks, k + 1, limit, H, k);
      if blocks[k + 1].free {
        forall i | from <= i < |now| ensures LooseAt(now, i, limit, H, k) {
          if i < k {
            assert LooseAt(blocks, i, limit, H, k);
          } else if i > k {
            assert now[i] == blocks[i + 1] && LooseAt(blocks, i + 1, limit, H, k);
          }
        }
      }
    }
  }

  lemma LeftDone(blocks: seq<Block>, from: nat, base: nat, limit: nat, H: nat, k: nat)
    requires Loose(blocks, from, base, limit, H, k) && (k + 1 < |blocks| ==> !blocks[k + 1].free)
    requires k == from && from > 0 ==> !blocks[from - 1].free || blocks[from - 1].pages > 0
    ensures Tiles(JoinLeft(blocks, k, H), from, base, limit, H) && |JoinLeft(blocks, k, H)| > from
    ensures JoinLeft(blocks, k, H)[..from] == blocks[..from]
  {
    var now := JoinLeft(blocks, k, H);
    if k > from {
      assert LooseAt(blocks, k - 1, limit, H, k);
      if blocks[k - 1].free {
        forall i | from <= i < |now| ensures ArenaAt(now, i, limit, H) {
          if i < k - 1 {
            assert LooseAt(blocks, i, limit, H, k);
          } else if i == k - 1 {
            assert LooseAt(blocks, k, limit, H, k);
            if k >= from + 2 { assert LooseAt(blocks, k - 2, limit, H, k); }
          } else {
            assert now[i] == blocks[i + 1] && LooseAt(blocks, i + 1, limit, H, k);
          }
        }
        return;
      }
    }
    assert now == blocks;
    forall i | from <= i < |now| ensures ArenaAt(now, i, limit, H) { assert LooseAt(blocks, i, limit, H, k); }
  }

  /** Freeing an arena block keeps the tiling and leaves no free neighbours. */
  lemma FreeBlock(blocks: seq<Block>, paged: nat, base: nat, limit: nat, H: nat, k: nat)
    requires Sound(blocks, paged, base, limit, H) && paged <= k < |blocks| && !blocks[k].free
    ensures Sound(Freed(blocks, k, H), paged, base, limit, H) && |Freed(blocks, k, H)| > paged
    ensures Freed(blocks, k, H)[..paged] == blocks[..paged]
  {
    var marked := blocks[k := blocks[k].(free := true)];
    FreeLoose(blocks, paged, base, limit, H, k);
    RightDone(marked, paged, base, limit, H, k);
    var right := JoinRight(marked, k, H);
    if paged > 0 { assert Paged(blocks[paged - 1], base, limit, H) && right[..k][paged - 1] == marked[..k][paged - 1]; }
    LeftDone(right, paged, base, limit, H, k);
    var now := Freed(blocks, k, H);
    assert right[..paged] == right[..k][..paged] == marked[..k][..paged] == blocks[..paged];
    forall i | 0 <= i < paged ensures now[i] == blocks[i] { assert now[..paged][i] == blocks[..paged][i]; }
  }

  /** A block with memory of its own, in front. */
  lemma PushBlock(blocks: seq<Block>, paged: nat, base: nat, limit: nat, H: nat, b: Block)
    requires Sound(blocks, paged, base, limit, H) && Paged(b, base, limit, H)
    requires forall i :: 0 <= i < paged ==> Disjoint(b, blocks[i], H)
    ensures Sound([b] + blocks, paged + 1, base, limit, H)
  {
    var now := [b] + blocks;
    forall i | paged + 1 <= i < |now| ensures ArenaAt(now, i, limit, H) { assert ArenaAt(blocks, i - 1, limit, H); }
  }

  lemma DropBlock(blocks: seq<Block>, paged: nat, base: nat, limit: nat, H: nat, k: nat)
    requires Sound(blocks, paged, base, limit, H) && k < paged
    ensures Sound(blocks[..k] + blocks[k + 1..], paged - 1, base, limit, H)
  {
    var now := blocks[..k] + blocks[k + 1..];
    forall i | 0 <= i < |now| ensures now[i] == blocks[if i < k then i else i + 1] {}
    forall i | paged - 1 <= i < |now| ensures ArenaAt(now, i, limit, H) { assert ArenaAt(blocks, i + 1, limit, H); }
  }

  // ----- the blocks in use -----

  ghost function Busy(blocks: seq<Block>): set<Block> {
    set i | 0 <= i < |blocks| && !blocks[i].free :: blocks[i]
  }

  /** All but the block a caller knows by that address. */
  ghost function Without(busy: set<Block>, H: nat, p: nat): set<Block> {
    set b | b in busy && b.addr + H != p
  }

  lemma FreeOrBusy(blocks: seq<Block>, i: nat)
    requires i < |blocks|
    ensures blocks[i].free || blocks[i] in Busy(blocks)
  {
  }

  ghost predicate OnlyFreeDiffer(blocks: seq<Block>, now: seq<Block>) {
    && (forall i :: 0 <= i < |blocks| && !blocks[i].free ==> blocks[i] in now)
    && (forall i :: 0 <= i < |now| && !now[i].free ==> now[i] in blocks)
  }

  lemma SameBusy(blocks: seq<Block>, now: seq<Block>)
    requires OnlyFreeDiffer(blocks, now)
    ensures Busy(now) == Busy(blocks)
  {
  }

  lemma BusyTaken(blocks: seq<Block>, k: nat, wanted: nat, H: nat)
    requires k < |blocks| && blocks[k].free && k < |Split(blocks, k, wanted, H)|
    ensures var now := Split(blocks, k, wanted, H); var taken := now[k].(free := false);
      Busy(now[k := taken]) == Busy(blocks) + {taken} && taken.addr == blocks[k].addr && taken.size <= blocks[k].size
      && (wanted <= blocks[k].size ==> wanted <= taken.size)
  {
    var split := Split(blocks, k, wanted, H);
    var taken := split[k].(free := false);
    var now := split[k := taken];
    var d := |split| - |blocks|;
    forall i | 0 <= i < |blocks| && i != k ensures blocks[i] in now {
      if i < k { assert now[i] == blocks[i]; } else { assert now[i + d] == blocks[i]; }
    }
    forall i | 0 <= i < |now| && i != k && !now[i].free ensures now[i] in blocks {
      if i < k { assert now[i] == blocks[i]; } else { assert now[i] == blocks[i - d]; }
    }
    assert now[k] == taken;
  }

  lemma JoinedBusy(blocks: seq<Block>, k: nat, H: nat)
    requires k + 1 < |blocks| && blocks[k].free && blocks[k + 1].free
    ensures OnlyFreeDiffer(blocks, Joined(blocks, k, H)) && Joined(blocks, k, H)[k].free
  {
    var now := Joined(blocks, k, H);
    forall i | 0 <= i < |blocks| && !blocks[i].free ensures blocks[i] in now {
      if i < k { assert now[i] == blocks[i]; } else { assert now[i - 1] == blocks[i]; }
    }
    forall i | 0 <= i < |now| && !now[i].free ensures now[i] in blocks {
      if i < k { assert now[i] == blocks[i]; } else { assert now[i] == blocks[i + 1]; }
    }
  }

  lemma BusyFreed(blocks: seq<Block>, k: nat, H: nat)
    requires k < |blocks| && !blocks[k].free && forall i :: 0 <= i < |blocks| && i != k ==> blocks[i] != blocks[k]
    ensures Busy(Freed(blocks, k, H)) == Busy(blocks) - {blocks[k]}
  {
    var marked := blocks[k := blocks[k].(free := true)];
    assert Busy(marked) == Busy(blocks) - {blocks[k]} by {
      forall i | 0 <= i < |blocks| && i != k && !blocks[i].free
        ensures blocks[i] in Busy(marked)
      {
        assert marked[i] == blocks[i];
      }
    }
    var right := JoinRight(marked, k, H);
    if right != marked { JoinedBusy(marked, k, H); SameBusy(marked, right); }
    if k < |right| && JoinLeft(right, k, H) != right {
      JoinedBusy(right, k - 1, H);
      SameBusy(right, JoinLeft(right, k, H));
    }
  }

  lemma BusyPushed(blocks: seq<Block>, b: Block)
    requires !b.free
    ensures Busy([b] + blocks) == Busy(blocks) + {b}
  {
    var now := [b] + blocks;
    forall i | 0 <= i < |blocks| ensures blocks[i] == now[i + 1] {}
    assert now[0] == b;
  }

  lemma BusyDropped(blocks: seq<Block>, k: nat)
    requires k < |blocks| && !blocks[k].free && forall i :: 0 <= i < |blocks| && i != k ==> blocks[i] != blocks[k]
    ensures Busy(blocks[..k] + blocks[k + 1..]) == Busy(blocks) - {blocks[k]}
  {
    var now := blocks[..k] + blocks[k + 1..];
    forall i | 0 <= i < |now| ensures now[i] == blocks[if i < k then i else i + 1] {}
    forall i | 0 <= i < |blocks| && i != k
      ensures blocks[i] in now
    {
      assert blocks[i] == now[if i < k then i else i - 1];
    }
  }
}
