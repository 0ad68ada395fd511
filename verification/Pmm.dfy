/** Physical frame allocator (src/mm/pmm.c): a packed bitmap, one reference
    count per frame, a running total of free frames and a search hint. */
module Pmm {
  import opened Powers

  const PAGE_SIZE := 4096
  const MAX_FRAMES := 0x10_0000 // 4 GiB of 4 KiB frames
  const REF_SATURATED := 255

  ghost function CountClear(used: seq<bool>): (n: nat)
    ensures n <= |used|
  {
    if used == [] then 0 else CountClear(used[..|used| - 1]) + if used[|used| - 1] then 0 else 1
  }

  lemma {:induction false} CountClearUpdate(used: seq<bool>, frame: nat, flag: bool)
    requires frame < |used|
    ensures CountClear(used[frame := flag])
         == CountClear(used) + (if used[frame] then 1 else 0) - (if flag then 1 else 0)
  {
    var n := |used| - 1;
    if frame == n {
      assert used[frame := flag][..n] == used[..n];
    } else {
      assert used[frame := flag][..n] == used[..n][frame := flag];
      CountClearUpdate(used[..n], frame, flag);
    }
  }

  lemma {:induction false} CountClearZero(used: seq<bool>)
    ensures CountClear(used) == 0 <==> forall f :: 0 <= f < |used| ==> used[f]
  {
    if used != [] {
      var n := |used| - 1;
      CountClearZero(used[..n]);
      assert forall f :: 0 <= f < n ==> used[..n][f] == used[f];
    }
  }

  /** What callers of the allocator can observe. */
  datatype Frames = Frames(used: seq<bool>, refs: seq<nat>, free: nat)

  ghost predicate Sound(p: Frames) {
    && |p.refs| == |p.used| <= MAX_FRAMES
    && (forall f :: 0 <= f < |p.refs| ==> p.refs[f] <= REF_SATURATED)
    && (forall f :: 0 <= f < |p.refs| && p.refs[f] > 0 ==> p.used[f])
    && (|p.used| > 0 ==> p.used[0])
    && p.free == CountClear(p.used)
  }

  // ----- alignment test of pmm_alloc_aligned_pages -----

  function BitAnd(x: nat, y: nat): nat {
    if x == 0 || y == 0 then 0
    else 2 * BitAnd(x / 2, y / 2) + (x % 2) * (y % 2)
  }

  /** For a power of two the mask test is divisibility. */
  lemma {:induction false} AndIsMod(x: nat, k: nat)
    ensures BitAnd(x, Pow2(k) - 1) == x % Pow2(k)
  {
    if k == 0 {
    } else if x == 0 {
    } else {
      var p := Pow2(k - 1);
      assert (2 * p - 1) / 2 == p - 1;
      AndIsMod(x / 2, k - 1);
      DoubleMod(x, p);
    }
  }

  lemma DoubleMod(x: nat, p: nat)
    requires p > 0
    ensures x % (2 * p) == 2 * (x / 2 % p) + x % 2
  {
    var q, r := x / 2 / p, x / 2 % p;
    DivModUnique(x, 2 * p, q, 2 * r + x % 2);
  }

  lemma MulLe(d: int, a: int, b: int)
    requires d > 0 && a <= b
    ensures d * a <= d * b
  {
  }

  lemma DivModUnique(x: int, d: int, q: int, r: int)
    requires d > 0 && x == d * q + r && 0 <= r < d
    ensures x / d == q && x % d == r
  {
    var q', r' := x / d, x % d;
    if q' > q {
      MulLe(d, q + 1, q');
    } else if q' < q {
      MulLe(d, q' + 1, q);
    }
  }

  ghost predicate ClearRun(used: seq<bool>, first: nat, count: nat) {
    first + count <= |used| && forall f :: first <= f < first + count ==> !used[f]
  }

  /** A place pmm_alloc_aligned_pages may return. */
  ghost predicate Candidate(used: seq<bool>, first: nat, count: nat, alignment: nat)
    requires alignment > 0
  {
    first > 0 && BitAnd(first, alignment - 1) == 0 && ClearRun(used, first, count)
  }

  // ----- boot memory map -----

  datatype Region = Region(base: nat, size: nat, usable: bool)

  function End(start: nat, size: nat): nat {
    if (start + size) % WORD < start || (start + size) % WORD > MAX_FRAMES * PAGE_SIZE
    then MAX_FRAMES * PAGE_SIZE else (start + size) % WORD
  }

  function FirstFree(start: nat): nat { (start + PAGE_SIZE - 1) % WORD / PAGE_SIZE }
  function LastFree(start: nat, size: nat): nat { End(start, size) / PAGE_SIZE }
  function FirstUsed(start: nat): nat { start / PAGE_SIZE }
  function LastUsed(start: nat, size: nat): nat { (End(start, size) + PAGE_SIZE - 1) / PAGE_SIZE }

  predicate Frees(r: Region, f: nat) { r.usable && FirstFree(r.base) <= f < LastFree(r.base, r.size) }
  predicate Reserves(r: Region, f: nat) { FirstUsed(r.base) <= f < LastUsed(r.base, r.size) }

  /** The frame lies wholly inside the region. */
  predicate Contains(r: Region, f: nat) { r.base <= f * PAGE_SIZE && (f + 1) * PAGE_SIZE <= r.base + r.size }

  /** The region has a byte in the frame. */
  predicate Touches(r: Region, f: nat) { r.size > 0 && r.base < (f + 1) * PAGE_SIZE && f * PAGE_SIZE < r.base + r.size }

  lemma EndIs(start: nat, size: nat)
    requires start < WORD && size < WORD
    ensures End(start, size) == if start + size > MAX_FRAMES * PAGE_SIZE then MAX_FRAMES * PAGE_SIZE else start + size
  {
    if start + size >= WORD { assert (start + size) % WORD == start + size - WORD; }
  }

  /** The rounding means what it should: a usable region frees exactly the frames wholly
      inside it and any other reserves exactly those it touches. */
  lemma RoundingMeans(r: Region, f: nat)
    requires r.base < WORD && r.size < WORD && f < MAX_FRAMES
    ensures r.base + PAGE_SIZE <= WORD ==> (Frees(r, f) <==> r.usable && Contains(r, f))
    ensures Reserves(r, f) <==> Touches(r, f) || (r.size == 0 && r.base / PAGE_SIZE == f && r.base % PAGE_SIZE != 0)
  {
    hide End;
    EndIs(r.base, r.size);
  }

  /** Except for a usable region that starts in the last page of the address space, which
      frees everything: the rounding means what it should for all others, and only those. */
  lemma RoundingWraps(r: Region)
    requires r.base < WORD && r.size < WORD && r.usable
    ensures (forall f: nat :: f < MAX_FRAMES ==> (Frees(r, f) <==> Contains(r, f))) <==> r.base + PAGE_SIZE <= WORD
    ensures r.base + PAGE_SIZE > WORD ==> forall f: nat :: f < MAX_FRAMES ==> Frees(r, f)
  {
    hide End;
    EndIs(r.base, r.size);
    if r.base + PAGE_SIZE <= WORD {
      forall f: nat | f < MAX_FRAMES ensures Frees(r, f) <==> Contains(r, f) { RoundingMeans(r, f); }
    } else {
      assert !Contains(r, 0) && Frees(r, 0);
    }
  }

  class FrameAllocator {
    const bitmap: array<bool>
    const refs: array<nat>
    var limit: nat
    var totalPages: nat
    var freePages: nat
    var searchStart: nat

    ghost predicate Shape()
      reads this
    {
      bitmap.Length == MAX_FRAMES && refs.Length == MAX_FRAMES && limit <= MAX_FRAMES && 1 <= searchStart
    }

    ghost function View(): Frames
      requires Shape()
      reads this, bitmap, refs
    {
      Frames(bitmap[..limit], refs[..limit], freePages)
    }

    ghost predicate Valid()
      reads this, bitmap, refs
    {
      Shape() && Sound(View()) && (searchStart == 1 || searchStart <= limit)
    }

    constructor ()
      ensures Valid() && limit == 0
      ensures fresh(bitmap) && fresh(refs)
    {
      bitmap := new bool[MAX_FRAMES](_ => true);
      refs := new nat[MAX_FRAMES](_ => 0);
      limit, totalPages, freePages, searchStart := 0, 0, 0, 1;
    }

    predicate IsUsed(frame: nat)
      requires Shape() && frame < MAX_FRAMES
      reads this, bitmap
    {
      bitmap[frame]
    }

    method SetUsed(frame: nat)
      requires Shape() && frame < limit && freePages == CountClear(bitmap[..limit])
      modifies this`freePages, bitmap, refs
      ensures bitmap[..limit] == old(bitmap[..limit])[frame := true]
      ensures freePages == CountClear(bitmap[..limit])
      ensures refs[..] == old(refs[..])[frame := if old(refs[frame]) == 0 then 1 else old(refs[frame])]
    {
      ghost var used := bitmap[..limit];
      CountClearUpdate(used, frame, true);
      if !IsUsed(frame) {
        bitmap[frame] := true;
        if freePages > 0 { freePages := freePages - 1; }
      } else {
        assert used[frame := true] == used;
      }
      if refs[frame] == 0 { refs[frame] := 1; }
    }

    method SetFree(frame: nat)
      requires Shape() && frame < limit && freePages == CountClear(bitmap[..limit])
      modifies this`freePages, bitmap, refs
      ensures bitmap[..limit] == old(bitmap[..limit])[frame := false]
      ensures freePages == CountClear(bitmap[..limit])
      ensures refs[..] == old(refs[..])[frame := 0]
    {
      ghost var used := bitmap[..limit];
      CountClearUpdate(used, frame, false);
      if IsUsed(frame) {
        bitmap[frame] := false;
        freePages := freePages + 1;
      } else {
        assert used[frame := false] == used;
      }
      refs[frame] := 0;
    }

    /** pmm_alloc_frame: 0 exactly when nothing is free; otherwise a frame that
        was free, now counted once, and nothing else changed. */
    method Alloc() returns (frame: nat)
      requires Valid()
      modifies this`freePages, this`searchStart, bitmap, refs
      ensures Valid()
      ensures frame == 0 <==> old(freePages) == 0
      ensures frame == 0 ==> View() == old(View())
      ensures frame != 0 ==> frame < limit && !old(View().used)[frame]
      ensures frame != 0 ==>
        View() == Frames(old(View().used)[frame := true], old(View().refs)[frame := 1], old(freePages) - 1)
    {
      hide CountClear;
      ghost var before := View();
      CountClearZero(before.used);
      for pass := 0 to 2
        invariant unchanged(this) && unchanged(bitmap) && unchanged(refs)
        invariant pass >= 1 ==> forall f :: searchStart <= f < limit ==> before.used[f]
        invariant pass >= 2 ==> forall f :: 1 <= f < searchStart && f < limit ==> before.used[f]
      {
        var begin := if pass == 0 then searchStart else 1;
        var end := if pass == 0 then limit else searchStart;
        var f := begin;
        while f < end
          invariant begin <= f
          invariant unchanged(this) && unchanged(bitmap) && unchanged(refs)
          invariant forall g :: begin <= g < f && g < limit ==> before.used[g]
        {
          if !IsUsed(f) {
            TakeFrame(f);
            searchStart := f + 1;
            return f;
          }
          f := f + 1;
        }
      }
      return 0;
    }

    /** pmm_retain_frame. */
    method Retain(address: nat) returns (ok: bool)
      requires Valid()
      modifies refs
      ensures Valid()
      ensures ok == (address % PAGE_SIZE == 0 && 0 < address / PAGE_SIZE < limit
                     && 0 < old(View().refs)[address / PAGE_SIZE] < REF_SATURATED)
      ensures View() == if !ok then old(View())
                        else old(View()).(refs := old(View().refs)[address / PAGE_SIZE :=
                          old(View().refs)[address / PAGE_SIZE] + 1])
    {
      hide CountClear;
      if address == 0 || address % PAGE_SIZE != 0 { return false; }
      var frame := address / PAGE_SIZE;
      if frame >= limit { return false; }
      ghost var before := View();
      ok := IsUsed(frame) && refs[frame] != 0 && refs[frame] != REF_SATURATED;
      assert before.used[frame] == IsUsed(frame) && before.refs[frame] == refs[frame];
      if ok {
        refs[frame] := refs[frame] + 1;
        assert refs[..limit] == before.refs[frame := before.refs[frame] + 1];
      }
    }

    /** pmm_free_frame: drops one reference; the last one clears the bit. */
    method Free(address: nat)
      requires Valid()
      modifies this`freePages, this`searchStart, bitmap, refs
      ensures Valid()
      ensures View() == Released(old(View()), address)
    {
      hide CountClear;
      if address == 0 || address % PAGE_SIZE != 0 { return; }
      var frame := address / PAGE_SIZE;
      if frame >= limit { return; }
      ghost var before := View();
      assert before.used[frame] == IsUsed(frame) && before.refs[frame] == refs[frame];
      if IsUsed(frame) && refs[frame] != 0 {
        refs[frame] := refs[frame] - 1;
        if refs[frame] == 0 {
          SetFree(frame);
          CountClearUpdate(before.used, frame, false);
          if frame < searchStart { searchStart := frame; }
          assert refs[..limit] == before.refs[frame := 0];
        } else {
          assert refs[..limit] == before.refs[frame := before.refs[frame] - 1];
        }
      }
    }

    method RefCount(address: nat) returns (count: nat)
      requires Valid()
      ensures count == if address % PAGE_SIZE == 0 && 0 < address / PAGE_SIZE < limit
                       then View().refs[address / PAGE_SIZE] else 0
    {
      if address == 0 || address % PAGE_SIZE != 0 { return 0; }
      if address / PAGE_SIZE >= limit { return 0; }
      return refs[address / PAGE_SIZE];
    }

    /** pmm_alloc_aligned_pages: the lowest aligned run of clear frames, or 0
        exactly when there is none (or the request is empty). */
    method AllocAligned(count: nat, alignment: nat) returns (first: nat)
      requires Valid()
      modifies this`freePages, this`searchStart, bitmap, refs
      ensures Valid()
      ensures count == 0 || alignment == 0 ==> first == 0
      ensures first == 0 ==> View() == old(View())
      ensures first == 0 && count > 0 && alignment > 0 ==> forall c :: !Candidate(old(View().used), c, count, alignment)
      ensures first != 0 ==> Candidate(old(View().used), first, count, alignment)
      ensures first != 0 ==> forall c :: 0 <= c < first ==> !Candidate(old(View().used), c, count, alignment)
      ensures first != 0 ==> View() == Occupied(old(View()), first, count)
    {
      hide CountClear;
      if count == 0 || alignment == 0 { return 0; }
      ghost var before := View();
      var run, frame := 0, 1;
      first := 0;
      while frame < limit
        invariant 1 <= frame && (frame <= limit || limit == 0)
        invariant unchanged(this) && unchanged(bitmap) && unchanged(refs)
        invariant run > 0 ==> 0 < first == frame - run && run < count
        invariant run > 0 ==> BitAnd(first, alignment - 1) == 0 && ClearRun(before.used, first, run)
        invariant forall c :: 0 <= c < (if run > 0 then first else frame) ==>
          !Candidate(before.used, c, count, alignment)
      {
        if run == 0 && BitAnd(frame, alignment - 1) != 0 {
        } else if !IsUsed(frame) {
          if run == 0 { first := frame; }
          run := run + 1;
          if run == count {
            TakeRun(first, count);
            searchStart := first + count;
            return;
          }
        } else {
          assert before.used[frame];
          run := 0;
        }
        frame := frame + 1;
      }
      return 0;
    }

    method TakeRun(first: nat, count: nat)
      requires Valid() && first > 0 && ClearRun(View().used, first, count)
      modifies this`freePages, bitmap, refs
      ensures Valid() && View() == Occupied(old(View()), first, count)
    {
      hide CountClear;
      ghost var before := View();
      for i := 0 to count
        invariant Valid() && View() == Occupied(before, first, i)
        invariant forall f :: first + i <= f < first + count ==> !bitmap[f]
      {
        TakeFrame(first + i);
      }
    }

    method TakeFrame(frame: nat)
      requires Valid() && 0 < frame < limit && !bitmap[frame]
      modifies this`freePages, bitmap, refs
      ensures Valid() && old(freePages) > 0
      ensures View() == Frames(old(View().used)[frame := true], old(View().refs)[frame := 1], old(freePages) - 1)
    {
      hide CountClear;
      ghost var before := View();
      CountClearUpdate(before.used, frame, true);
      SetUsed(frame);
      refs[frame] := 1;
      assert refs[..limit] == before.refs[frame := 1];
    }

    /** Walks one region of the boot map, marking its frames free or used. */
    method MarkRegion(first: nat, end: nat, used: bool)
      requires Shape() && freePages == CountClear(bitmap[..limit])
      requires forall f :: 0 <= f < limit && refs[f] > 0 ==> bitmap[f]
      requires forall f :: 0 <= f < limit ==> refs[f] <= 1
      modifies this`freePages, bitmap, refs
      ensures freePages == CountClear(bitmap[..limit])
      ensures forall f :: 0 <= f < limit && refs[f] > 0 ==> bitmap[f]
      ensures forall f :: 0 <= f < limit ==> refs[f] <= 1
      ensures forall f :: 0 <= f < limit ==> bitmap[f] == if first <= f < end then used else old(bitmap[f])
    {
      hide CountClear;
      var last := if end > limit then limit else end;
      var frame := first;
      while frame < last
        invariant first <= frame && (frame <= last || frame == first)
        invariant freePages == CountClear(bitmap[..limit])
        invariant forall f :: 0 <= f < limit && refs[f] > 0 ==> bitmap[f]
        invariant forall f :: 0 <= f < limit ==> refs[f] <= 1
        invariant forall f :: 0 <= f < limit ==> bitmap[f] == if first <= f < frame then used else old(bitmap[f])
      {
        ghost var flags, counts := bitmap[..limit], refs[..];
        if used { SetUsed(frame); } else { SetFree(frame); }
        assert forall f :: 0 <= f < limit ==> bitmap[f] == bitmap[..limit][f] && refs[f] == refs[..][f];
        frame := frame + 1;
      }
    }

    /** pmm_init: a frame ends up allocatable exactly when some usable region
        contains all of it, no other region touches it and no fixed reservation
        (frame zero, the start-up trampoline, the kernel image) covers it. */
    method Init(regions: seq<Region>, fixed: seq<Region>)
      requires Shape()
      requires Region(0, PAGE_SIZE, false) in fixed && forall r :: r in fixed ==> !r.usable
      modifies this, bitmap, refs
      ensures Valid() && totalPages == freePages
      ensures forall f :: 0 <= f < limit ==>
        (!View().used[f] <==> (exists r :: r in regions && Frees(r, f))
                              && (forall r :: r in regions && !r.usable ==> !Reserves(r, f))
                              && (forall r :: r in fixed ==> !Reserves(r, f)))
      ensures forall r :: r in regions ==> End(r.base, r.size) / PAGE_SIZE <= limit
    {
      hide CountClear;
      Reset(regions);
      FreeAll(regions);
      ReserveAll(regions);
      ReserveAll(fixed);
      assert limit > 0 ==> Reserves(Region(0, PAGE_SIZE, false), 0);
      totalPages := freePages;
    }

    /** Everything reserved, nothing counted, and the limit past every region. */
    method Reset(regions: seq<Region>)
      requires Shape()
      modifies this, bitmap, refs
      ensures Shape() && searchStart == 1 && freePages == CountClear(bitmap[..limit])
      ensures forall f :: 0 <= f < limit ==> bitmap[f] && refs[f] == 0
      ensures forall r :: r in regions ==> End(r.base, r.size) / PAGE_SIZE <= limit
    {
      forall f | 0 <= f < bitmap.Length { bitmap[f] := true; }
      forall f | 0 <= f < refs.Length { refs[f] := 0; }
      limit, totalPages, freePages, searchStart := 0, 0, 0, 1;
      for i := 0 to |regions|
        invariant limit <= MAX_FRAMES && searchStart == 1 && freePages == 0
        invariant forall f :: 0 <= f < MAX_FRAMES ==> bitmap[f] && refs[f] == 0
        invariant forall j :: 0 <= j < i ==> End(regions[j].base, regions[j].size) / PAGE_SIZE <= limit
      {
        var frameEnd := End(regions[i].base, regions[i].size) / PAGE_SIZE;
        if frameEnd > limit { limit := frameEnd; }
      }
      CountClearZero(bitmap[..limit]);
    }

    method FreeAll(regions: seq<Region>)
      requires Shape() && freePages == CountClear(bitmap[..limit])
      requires forall f :: 0 <= f < limit ==> bitmap[f] && refs[f] == 0
      modifies this`freePages, bitmap, refs
      ensures freePages == CountClear(bitmap[..limit])
      ensures forall f :: 0 <= f < limit && refs[f] > 0 ==> bitmap[f]
      ensures forall f :: 0 <= f < limit ==> refs[f] <= 1
      ensures forall f :: 0 <= f < limit ==> (bitmap[f] <==> forall r :: r in regions ==> !Frees(r, f))
    {
      hide CountClear;
      for i := 0 to |regions|
        invariant freePages == CountClear(bitmap[..limit])
        invariant forall f :: 0 <= f < limit && refs[f] > 0 ==> bitmap[f]
        invariant forall f :: 0 <= f < limit ==> refs[f] <= 1
        invariant forall f :: 0 <= f < limit ==> (bitmap[f] <==> forall j :: 0 <= j < i ==> !Frees(regions[j], f))
      {
        if regions[i].usable {
          MarkRegion(FirstFree(regions[i].base), LastFree(regions[i].base, regions[i].size), false);
        }
      }
    }

    method ReserveAll(regions: seq<Region>)
      requires Shape() && freePages == CountClear(bitmap[..limit])
      requires forall f :: 0 <= f < limit && refs[f] > 0 ==> bitmap[f]
      requires forall f :: 0 <= f < limit ==> refs[f] <= 1
      modifies this`freePages, bitmap, refs
      ensures freePages == CountClear(bitmap[..limit])
      ensures forall f :: 0 <= f < limit && refs[f] > 0 ==> bitmap[f]
      ensures forall f :: 0 <= f < limit ==> refs[f] <= 1
      ensures forall f :: 0 <= f < limit ==>
        (bitmap[f] <==> old(bitmap[f]) || exists r :: r in regions && !r.usable && Reserves(r, f))
    {
      hide CountClear;
      for i := 0 to |regions|
        invariant freePages == CountClear(bitmap[..limit])
        invariant forall f :: 0 <= f < limit && refs[f] > 0 ==> bitmap[f]
        invariant forall f :: 0 <= f < limit ==> refs[f] <= 1
        invariant forall f :: 0 <= f < limit ==>
          (bitmap[f] <==> old(bitmap[f]) || exists j :: 0 <= j < i && !regions[j].usable && Reserves(regions[j], f))
      {
        if !regions[i].usable {
          MarkRegion(FirstUsed(regions[i].base), LastUsed(regions[i].base, regions[i].size), true);
        }
      }
    }
  }

  /** The abstract effect of claiming a run of frames. */
  ghost function Occupied(p: Frames, first: nat, count: nat): (q: Frames)
    requires |p.refs| == |p.used| && first + count <= |p.used|
    ensures |q.refs| == |q.used| == |p.used|
  {
    if count == 0 then p else
      var q := Occupied(p, first, count - 1);
      Frames(q.used[first + count - 1 := true], q.refs[first + count - 1 := 1], if q.free == 0 then 0 else q.free - 1)
  }

  /** Exactly the frames of the run are taken and counted once. */
  lemma {:induction false} OccupiedAt(p: Frames, first: nat, count: nat, f: nat)
    requires |p.refs| == |p.used| && first + count <= |p.used| && f < |p.used|
    ensures Occupied(p, first, count).used[f] == (first <= f < first + count || p.used[f])
    ensures Occupied(p, first, count).refs[f] == if first <= f < first + count then 1 else p.refs[f]
  {
    if count > 0 { OccupiedAt(p, first, count - 1, f); }
  }

  /** The abstract effect of dropping one reference to a physical address. */
  ghost function Released(p: Frames, address: nat): Frames
    requires |p.refs| == |p.used|
  {
    var f := address / PAGE_SIZE;
    if address % PAGE_SIZE != 0 || f == 0 || f >= |p.refs| || p.refs[f] == 0 then p
    else if p.refs[f] == 1 then Frames(p.used[f := false], p.refs[f := 0], p.free + 1)
    else p.(refs := p.refs[f := p.refs[f] - 1])
  }
}
