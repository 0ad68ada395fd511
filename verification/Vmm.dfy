/** The virtual memory manager (src/mm/vmm.c) over counted frames. Every method
    says which steps of the copying machine it amounts to. */
module Vmm {
  import opened Pmm
  import opened Powers
  import opened Cow

  const EACCES := -13
  const EFAULT := -14
  const EINVAL := -22
  const ENOENT := -2
  const ENOMEM := -12
  const ENOSPC := -28

  const KERNEL := -1
  const STACK_MAX := 8 * 1024 * 1024
  const USER_START := 0x40_0000
  const USER_END := 0x7FFF_FFFF_FFFF

  /** The process whose faults are served. */
  datatype Process = Process(userMode: bool, mm: int, stackTop: nat, stackBottom: nat, brkStart: nat, brkEnd: nat)

  function StackLimit(p: Process): nat { (p.stackTop % WORD + WORD - STACK_MAX) % WORD }

  predicate ValidUserRange(address: nat, size: nat) {
    USER_START <= address < USER_END && address + size - 1 < USER_END
  }

  predicate IsUser(x: nat) { USER_START <= x < USER_END }

  /** A range that is not empty is valid exactly if all of it is user memory. */
  lemma RangeIsUser(address: nat, size: nat)
    requires size > 0
    ensures ValidUserRange(address, size) <==> forall x: nat :: address <= x < address + size ==> IsUser(x)
  {
    if forall x: nat :: address <= x < address + size ==> IsUser(x) {
      assert IsUser(address) && IsUser(address + size - 1);
    }
  }

  /** The stack grows page by page and never beyond its largest size. */
  lemma StackBounded(p: Process, address: nat)
    requires p.stackBottom <= p.stackTop < WORD && STACK_MAX <= p.stackTop <= p.stackBottom + STACK_MAX
    ensures var q := StackGrown(p, PageOf(address));
      && q.stackTop == p.stackTop <= q.stackBottom + STACK_MAX
      && (q == p || (q.stackBottom + PAGE_SIZE == p.stackBottom && q.stackBottom <= address))
  {
    PageAligned(address);
  }

  /** The page-table code failed some request of a stretch. */
  ghost predicate Refused(answers: nat -> int, from: nat, till: nat) {
    exists n: nat :: from <= n < till && answers(n) < 0
  }

  /** What a request to the page-table code comes to: its failure, or 0. */
  function Answer(x: int): int { if x < 0 then x else 0 }

  lemma RefusedLater(answers: nat -> int, from: nat, n: nat, m: nat, till: nat)
    requires from <= n && m <= till && Refused(answers, n, m)
    ensures Refused(answers, from, till)
  {
    var k: nat :| n <= k < m && answers(k) < 0;
  }

  /** One more reference for each of the mappings would be more than a count can hold. */
  ghost predicate Saturates(p: Frames, ms: seq<Mapping>) {
    exists f :: 0 <= f < |p.refs| && p.refs[f] + Owned(ms, f) > REF_SATURATED
  }

  class AddressSpaces {
    const pmm: FrameAllocator
    /** The outcome of the n-th request to the page-table code: any negative
        value is a failure. */
    const archResult: nat -> int
    /** References to frames that are not mappings (page tables, stacks, ...). */
    ghost const others: multiset<nat>
    var archCalls: nat
    var slots: seq<Slot>
    var mem: Memory
    var current: seq<int>
    var proc: Option<Process>

    ghost predicate Current()
      reads this
    {
      forall cpu :: 0 <= cpu < |current| ==>
        current[cpu] == KERNEL || (0 <= current[cpu] < |slots| && slots[current[cpu]].used)
    }

    ghost predicate Valid()
      reads this, pmm, pmm.bitmap, pmm.refs
    {
      pmm.Valid() && Inv(slots, pmm.View(), others) && Current()
    }

    ghost function Seen(): seq<Space>
      reads this
    {
      Spaces(slots, mem)
    }

    predicate InUse(c: int)
      reads this
    {
      0 <= c < |slots| && slots[c].used
    }

    constructor (pmm: FrameAllocator, archResult: nat -> int, mem: Memory, cpus: nat, ghost others: multiset<nat>)
      requires pmm.Valid()
      requires forall f :: 0 <= f < |pmm.View().refs| ==> pmm.View().refs[f] == others[f]
      ensures Valid() && this.pmm == pmm && forall c :: 0 <= c < |Seen()| ==> Seen()[c] == NoSpace
      ensures proc == None && |current| == cpus && forall i :: 0 <= i < cpus ==> current[i] == KERNEL
      ensures this.archResult == archResult && this.mem == mem && |slots| == MAX_CONTEXTS && archCalls == 0
    {
      this.pmm, this.archResult, this.mem, this.others := pmm, archResult, mem, others;
      archCalls, proc := 0, None;
      slots := seq(MAX_CONTEXTS, _ => EmptySlot);
      current := seq(cpus, _ => KERNEL);
      new;
      forall f | 0 <= f < |pmm.View().refs| ensures AllOwned(slots, f) == 0 { NothingOwned(slots, f); }
    }

    static lemma {:induction false} NothingOwned(slots: seq<Slot>, f: nat)
      requires forall c :: 0 <= c < |slots| ==> slots[c].mappings == []
      ensures AllOwned(slots, f) == 0
    {
      if slots != [] { NothingOwned(slots[..|slots| - 1], f); }
    }

    // ----- page tables -----

    method ArchMap(c: nat, virt: nat, phys: nat, flags: Flags) returns (r: int)
      requires c < |slots|
      modifies this`archCalls, this`slots
      ensures r == Answer(archResult(old(archCalls))) && archCalls == old(archCalls) + 1
      ensures r <= 0 && (r < 0 ==> Refused(archResult, old(archCalls), archCalls))
      ensures slots == if r < 0 then old(slots)
        else old(slots)[c := old(slots)[c].(table := old(slots)[c].table[virt := Pte(phys, flags)])]
    {
      r := archResult(archCalls);
      archCalls := archCalls + 1;
      assert r < 0 ==> archResult(archCalls - 1) < 0;
      if r < 0 { return; }
      slots := slots[c := slots[c].(table := slots[c].table[virt := Pte(phys, flags)])];
      r := 0;
    }

    method FindMapping(c: int, address: nat) returns (k: int)
      ensures k < 0 <==>
        !InUse(c) || forall i :: 0 <= i < |slots[c].mappings| ==> slots[c].mappings[i].virt != PageOf(address)
      ensures k >= 0 ==> InUse(c) && k < |slots[c].mappings| && slots[c].mappings[k].virt == PageOf(address)
    {
      if !InUse(c) { return -1; }
      for i := 0 to |slots[c].mappings|
        invariant forall j :: 0 <= j < i ==> slots[c].mappings[j].virt != PageOf(address)
      {
        if slots[c].mappings[i].virt == PageOf(address) { return i; }
      }
      return -1;
    }

    ghost predicate Mapped(c: int, page: nat)
      reads this
    {
      InUse(c) && exists i :: 0 <= i < |slots[c].mappings| && slots[c].mappings[i].virt == page
    }

    // ----- creating and destroying -----

    method CreateContext() returns (c: int, ghost log: seq<Step>)
      requires Valid()
      modifies this`archCalls, this`slots
      ensures Valid() && Seen() == ApplyAll(old(Seen()), log) && Landed(old(Seen()), log)
      ensures c < 0 ==> slots == old(slots) && log == []
      ensures c >= 0 ==>
        && c < |slots| && !old(slots)[c].used && slots == old(slots)[c := Slot(true, [], map[], DYNAMIC_BASE)]
        && log == [New(c)]
      ensures c >= 0 ==> forall i :: 0 <= i < c ==> old(slots)[i].used
      ensures old(archCalls) <= archCalls
      ensures c < 0 ==>
        Refused(archResult, old(archCalls), archCalls) || forall i :: 0 <= i < |slots| ==> old(slots)[i].used
      ensures c < 0 <==> archResult(old(archCalls)) < 0 || forall i :: 0 <= i < |slots| ==> old(slots)[i].used
    {
      hide SlotOk, Counted, AllFit, Sound, Spaces;
      log := [];
      for i := 0 to MAX_CONTEXTS
        invariant slots == old(slots) && archCalls == old(archCalls)
        invariant forall j :: 0 <= j < i ==> slots[j].used
      {
        if !slots[i].used {
          var root := archResult(archCalls);
          archCalls := archCalls + 1;
          assert root < 0 ==> archResult(archCalls - 1) < 0;
          if root < 0 { return -1, []; }
          var s := Slot(true, [], map[], DYNAMIC_BASE);
          Opened(slots, pmm.View(), others, mem, i);
          slots := slots[i := s];
          return i, [New(i)];
        }
      }
      return -1, [];
    }

    /** vmm_destroy_context: refused while some CPU runs in it; otherwise every
        owned frame loses exactly one reference. */
    method DestroyContext(c: int)
      requires pmm.Valid() && SlotsOk(slots, pmm.limit)
      requires InUse(c) ==> Covers(pmm.View(), slots[c].mappings)
      modifies this`slots, pmm`freePages, pmm`searchStart, pmm.bitmap, pmm.refs
      ensures pmm.Valid()
      ensures !old(InUse(c)) || c in current ==> slots == old(slots) && pmm.View() == old(pmm.View())
      ensures old(InUse(c)) && c !in current ==>
        slots == old(slots)[c := EmptySlot] && pmm.View() == ReleasedAll(old(pmm.View()), old(slots)[c].mappings)
    {
      hide SlotOk, Sound, Released;
      if !InUse(c) { return; }
      for cpu := 0 to |current|
        invariant forall j :: 0 <= j < cpu ==> current[j] != c
      {
        if current[cpu] == c { return; }
      }
      var ms := slots[c].mappings;
      for i := 0 to |ms|
        invariant slots == old(slots) && pmm.Valid() && pmm.View() == ReleasedAll(old(pmm.View()), ms[..i])
      {
        assert ms[..i + 1][..i] == ms[..i];
        if ms[i].owned { pmm.Free(ms[i].phys); }
      }
      assert ms[..|ms|] == ms;
      slots := slots[c := EmptySlot];
    }

    /** The same call seen from outside: the space disappears, others keep
        theirs. */
    method Destroy(c: int) returns (ghost log: seq<Step>)
      requires Valid()
      modifies this`slots, pmm`freePages, pmm`searchStart, pmm.bitmap, pmm.refs
      ensures Valid() && Seen() == ApplyAll(old(Seen()), log) && Landed(old(Seen()), log)
      ensures |slots| == |old(slots)| && forall d :: 0 <= d < |slots| && d != c ==> slots[d] == old(slots)[d]
      ensures log == if old(InUse(c)) && c !in current then [Discard(c)] else []
    {
      hide SlotOk, Counted, AllFit, Sound, Spaces, Apply, ReleasedAll, Covers;
      if InUse(c) {
        OwnerCovers(slots, pmm.View(), others, c);
        if c !in current {
          Vanish(slots, pmm.View(), others, mem, c);
          DestroyContext(c);
          return [Discard(c)];
        }
      }
      DestroyContext(c);
      return [];
    }

    /** vmm_switch_context on one CPU: to a space, to the kernel's own if none is given; a space that does not exist is
        not loaded. */
    method SwitchContext(cpu: nat, c: int)
      requires Valid() && cpu < |current|
      modifies this`current
      ensures Valid()
      ensures current == old(current)[cpu := if c < 0 then KERNEL else if InUse(c) then c else old(current)[cpu]]
    {
      hide Inv;
      var next := if c < 0 then KERNEL else c;
      if next == current[cpu] || (c >= 0 && !InUse(c)) { return; }
      current := current[cpu := next];
    }

    // ----- mapping -----

    /** No page can be mapped there: the space, an address or the number of mappings is against it. */
    ghost predicate Barred(c: int, virt: nat, phys: nat)
      reads this
    {
      !InUse(c) || virt == 0 || virt % PAGE_SIZE != 0 || phys % PAGE_SIZE != 0 || |slots[c].mappings| >= MAX_MAPPINGS
    }

    /** The hardware entry of a page. */
    ghost predicate Entered(c: int, virt: nat, phys: nat, flags: Flags)
      reads this
    {
      InUse(c) && virt in slots[c].table && slots[c].table[virt] == Pte(phys, flags)
    }

    /** The hardware lets a page be written; by user code too, if it is a user page. */
    ghost predicate Open(c: int, page: nat)
      reads this
    {
      InUse(c) && page in slots[c].table && slots[c].table[page].flags.writable
    }

    /** vmm_map, for a page that is not mapped yet. */
    method Map(c: int, virt: nat, phys: nat, flags: Flags) returns (r: int)
      requires SlotsOk(slots, pmm.limit) && !Mapped(c, virt)
      modifies this`archCalls, this`slots
      ensures OnlyEntryOf(old(slots), slots, c, virt)
      ensures r <= 0
      ensures r < 0 ==> slots == old(slots)
      ensures old(archCalls) <= archCalls
      ensures r < 0 ==> old(Barred(c, virt, phys)) || Refused(archResult, old(archCalls), archCalls)
      ensures !old(InUse(c)) || virt == 0 || virt % PAGE_SIZE != 0 || phys % PAGE_SIZE != 0 ==> r == EINVAL
      ensures r == 0 ==>
        && old(InUse(c)) && virt > 0 && virt % PAGE_SIZE == 0 && phys % PAGE_SIZE == 0
        && |old(slots)[c].mappings| < MAX_MAPPINGS
      ensures
        old(InUse(c)) && virt > 0 && virt % PAGE_SIZE == 0 && phys % PAGE_SIZE == 0 && old(Barred(c, virt, phys)) ==>
        r == ENOSPC
      ensures !old(Barred(c, virt, phys)) ==> r == Answer(archResult(old(archCalls)))
      ensures r == 0 ==> Entered(c, virt, phys, flags.(present := true))
      ensures r == 0 ==>
        slots == old(slots)[c := Extended(old(slots)[c], Mapping(virt, phys, flags.(present := true), false))]
    {
      hide SlotOk;
      if !InUse(c) || virt == 0 || virt % PAGE_SIZE != 0 || phys % PAGE_SIZE != 0 { return EINVAL; }
      var k := FindMapping(c, virt);
      if k < 0 && |slots[c].mappings| >= MAX_MAPPINGS { return ENOSPC; }
      r := ArchMap(c, virt, phys, flags.(present := true));
      if r < 0 { return; }
      slots := slots[c := slots[c].(mappings := slots[c].mappings + [Mapping(virt, phys, flags.(present := true),
                                                                             false)])];
    }

    /** vmm_map of a frame that belongs to somebody else. */
    method MapForeign(c: int, virt: nat, phys: nat, flags: Flags) returns (r: int, ghost log: seq<Step>)
      requires Valid() && !Mapped(c, virt)
      requires phys > 0 && Fits(Mapping(virt, phys, flags, false), pmm.View(), others)
      modifies this`archCalls, this`slots
      ensures OnlyEntryOf(old(slots), slots, c, virt)
      ensures Valid() && Seen() == ApplyAll(old(Seen()), log) && Landed(old(Seen()), log)
      ensures r <= 0 && (r == 0 ==> old(InUse(c)) && virt > 0 && virt % PAGE_SIZE == 0)
      ensures old(archCalls) <= archCalls
      ensures r < 0 ==> old(Barred(c, virt, phys)) || Refused(archResult, old(archCalls), archCalls)
      ensures old(Barred(c, virt, phys)) ==> r in {EINVAL, ENOSPC}
      ensures !old(Barred(c, virt, phys)) ==> r == Answer(archResult(old(archCalls)))
      ensures r == 0 ==> Entered(c, virt, phys, flags.(present := true))
      ensures log == if r < 0 then [] else [Bind(c, virt, phys, flags.(present := true), mem[phys])]
    {
      hide SlotOk, Counted, AllFit, Sound, Spaces, Apply;
      ghost var before := slots;
      r := Map(c, virt, phys, flags);
      if r < 0 { return r, []; }
      assert FrameOf(Mapping(virt, phys, flags, false)) == FrameOf(Mapping(virt, phys, flags.(present := true), false));
      Bound(before, pmm.View(), others, mem, c, Mapping(virt, phys, flags.(present := true), false));
      return r, [Bind(c, virt, phys, flags.(present := true), mem[phys])];
    }

    /** vmm_map_allocated: a zeroed page that is the only user of its frame, or
        no change at all, not even in the counts. */
    method MapAllocated(c: int, virt: nat, flags: Flags) returns (r: int, ghost log: seq<Step>)
      requires Valid() && !Mapped(c, virt)
      modifies this`archCalls, this`slots, this`mem, pmm`freePages, pmm`searchStart, pmm.bitmap, pmm.refs
      ensures OnlyEntryOf(old(slots), slots, c, virt)
      ensures Valid() && Seen() == ApplyAll(old(Seen()), log) && Landed(old(Seen()), log)
      ensures r <= 0 && (r < 0 ==> slots == old(slots) && pmm.View() == old(pmm.View()))
      ensures old(archCalls) <= archCalls
      ensures r < 0 ==>
        old(Barred(c, virt, 0)) || old(pmm.freePages) == 0 || Refused(archResult, old(archCalls), archCalls)
      ensures r == 0 ==>
        old(InUse(c)) && virt % PAGE_SIZE == 0 && Mapped(c, virt) && (MayWrite(flags) ==> Writable(c, virt))
      ensures old(pmm.freePages) == 0 ==> r == ENOMEM
      ensures old(pmm.freePages) > 0 && old(Barred(c, virt, 0)) ==> r in {EINVAL, ENOSPC}
      ensures old(pmm.freePages) > 0 && !old(Barred(c, virt, 0)) ==> r == Answer(archResult(old(archCalls)))
      ensures r == 0 ==> virt in slots[c].table && slots[c].table[virt].flags == flags.(present := true)
      ensures log == if r < 0 then [] else [Grow(c, virt, Meant(Mapping(virt, 0, flags.(present := true), true)))]
    {
      hide SlotOk, Counted, AllFit, Sound, Spaces, Apply, Released, Taken, CountClear;
      ghost var p := pmm.View();
      var physical := AllocCopy(ZeroPage());
      if physical == 0 { return ENOMEM, []; }
      r := Place(c, virt, physical, flags, p);
      if r < 0 {
        pmm.Free(physical);
        return r, [];
      }
      return 0, [Grow(c, virt, Meant(Mapping(virt, 0, flags.(present := true), true)))];
    }

    /** Maps a frame that was just taken and records the owner. */
    method Place(c: int, virt: nat, physical: nat, flags: Flags, ghost p: Frames) returns (r: int)
      requires pmm.Valid() && Inv(slots, p, others) && Current() && !Mapped(c, virt)
      requires physical % PAGE_SIZE == 0 && 0 < physical / PAGE_SIZE < |p.used| && |p.used| == |p.refs| == pmm.limit
      requires !p.used[physical / PAGE_SIZE] && p.free > 0
      requires pmm.View() == Taken(p, physical / PAGE_SIZE) && mem[physical] == ZeroPage()
      modifies this`archCalls, this`slots
      ensures OnlyEntryOf(old(slots), slots, c, virt)
      ensures r <= 0 && (r < 0 ==> slots == old(slots)) && old(archCalls) <= archCalls
      ensures r < 0 ==> old(Barred(c, virt, 0)) || Refused(archResult, old(archCalls), archCalls)
      ensures r == 0 ==>
        old(InUse(c)) && virt % PAGE_SIZE == 0 && Mapped(c, virt) && (MayWrite(flags) ==> Writable(c, virt))
      ensures old(Barred(c, virt, 0)) ==> r in {EINVAL, ENOSPC}
      ensures !old(Barred(c, virt, 0)) ==> r == Answer(archResult(old(archCalls)))
      ensures r == 0 ==> Entered(c, virt, physical, flags.(present := true))
      ensures r == 0 ==> Valid()
      ensures r == 0 ==>
        Seen() == ApplyAll(old(Seen()), [Grow(c, virt, Meant(Mapping(virt, 0, flags.(present := true), true)))])
      ensures r == 0 ==> Landed(old(Seen()), [Grow(c, virt, Meant(Mapping(virt, 0, flags.(present := true), true)))])
    {
      hide SlotOk, Counted, AllFit, Sound, Spaces, Apply, Taken, CountClear;
      ghost var before := slots;
      r := Map(c, virt, physical, flags);
      if r < 0 { return; }
      ghost var m := Mapping(virt, physical, flags.(present := true), true);
      SetOwned(c, before[c], m.(owned := false), true);
      assert slots == before[c := Extended(before[c], m)] && slots[c].mappings[|before[c].mappings|] == m;
      Grown(before, p, others, mem, c, m);
    }

    /** Looks up the mapping just added and records who owns its frame. */
    method SetOwned(c: nat, ghost s: Slot, ghost m: Mapping, owned: bool)
      requires c < |slots| && slots[c].used && slots[c] == Extended(s, m) && m.virt % PAGE_SIZE == 0
      requires forall i :: 0 <= i < |s.mappings| ==> s.mappings[i].virt != m.virt
      modifies this`slots
      ensures slots == old(slots)[c := Extended(s, m.(owned := owned))]
    {
      var virt := slots[c].mappings[|slots[c].mappings| - 1].virt;
      assert slots[c].mappings[|s.mappings|].virt == PageOf(virt);
      var k := FindMapping(c, virt);
      assert k == |s.mappings| && (s.mappings + [m])[k := m.(owned := owned)] == s.mappings + [m.(owned := owned)];
      slots := slots[c := slots[c].(mappings := slots[c].mappings[k := slots[c].mappings[k].(owned := owned)])];
    }

    /** Takes a frame and fills it; nobody can see that happen. */
    method AllocCopy(data: Page) returns (physical: nat)
      requires Valid()
      modifies this`mem, pmm`freePages, pmm`searchStart, pmm.bitmap, pmm.refs
      ensures pmm.Valid() && Seen() == old(Seen())
      ensures physical == 0 <==> old(pmm.freePages) == 0
      ensures physical == 0 ==> pmm.View() == old(pmm.View()) && old(pmm.freePages) == 0
      ensures physical > 0 ==>
        && physical % PAGE_SIZE == 0 && 0 < physical / PAGE_SIZE < |old(pmm.View()).used|
        && !old(pmm.View()).used[physical / PAGE_SIZE] && old(pmm.View()).free > 0
        && pmm.View() == Taken(old(pmm.View()), physical / PAGE_SIZE)
        && Released(pmm.View(), physical) == old(pmm.View())
        && mem == old(mem)[physical := data]
    {
      hide SlotOk, Counted, AllFit, Spaces, CountClear;
      ghost var p := pmm.View();
      var frame := pmm.Alloc();
      if frame == 0 { return 0; }
      physical := frame * PAGE_SIZE;
      assert physical / PAGE_SIZE == frame && physical % PAGE_SIZE == 0;
      Unseen(slots, p, others, mem, physical, data);
      Undone(p, physical);
      mem := mem[physical := data];
    }

    // ----- copy on write -----

    /** break_cow: afterwards the page may be written in place and its frame has
        no other reference; no space sees a change. A failure changes nothing. */
    method BreakCow(c: int, page: nat) returns (r: int)
      requires Valid() && page % PAGE_SIZE == 0
      modifies this`archCalls, this`slots, this`mem, pmm`freePages, pmm`searchStart, pmm.bitmap, pmm.refs
      ensures OnlyEntryOf(old(slots), slots, c, page) && KeepsOpen(old(slots), slots)
      ensures Valid() && Seen() == old(Seen())
      ensures r <= 0 && (r < 0 ==> slots == old(slots) && pmm.View() == old(pmm.View()))
      ensures r == BreakCode(old(slots), old(pmm.View()), c, page, archResult(old(archCalls)))
      ensures old(archCalls) <= archCalls
      ensures r < 0 && old(CowPage(slots, c, page)) ==>
        old(pmm.freePages) == 0 || Refused(archResult, old(archCalls), archCalls)
      ensures r == 0 ==> Writable(c, page) && Open(c, page)
      ensures forall d :: 0 <= d < |slots| && d != c ==> slots[d] == old(slots)[d]
    {
      hide SlotOk, Counted, AllFit, Sound, Spaces, Released, Taken, CountClear, KeepsOpen, OnlyEntryOf;
      SameOpen(slots, c, page);
      ghost var before, p := slots, pmm.View();
      var k := FindMapping(c, page);
      AlignedPage(page);
      if k >= 0 { BreakIs(slots, pmm.View(), others, c, k, page); }
      if k < 0 || !slots[c].mappings[k].flags.cow || !slots[c].mappings[k].owned { return EACCES; }
      var m := slots[c].mappings[k];
      var n := pmm.RefCount(m.phys);
      OwnerFacts(slots, pmm.View(), others, c, k);
      if n == 1 {
        r := Reclaim(c, k);
      } else {
        r := Split(c, k);
      }
      if r == 0 { SplitOpen(before, p, old(mem), slots, pmm.View(), mem, others, c, page); }
    }

    ghost predicate Writable(c: int, page: nat)
      reads this
    {
      InUse(c) && exists i ::
        0 <= i < |slots[c].mappings| && slots[c].mappings[i].virt == page && MayWrite(slots[c].mappings[i].flags)
    }

    method Reclaim(c: nat, k: nat) returns (r: int)
      requires Valid() && At(slots, c, k) && slots[c].used
      requires slots[c].mappings[k].flags.cow && slots[c].mappings[k].owned
      requires FrameOf(slots[c].mappings[k]) < |pmm.View().refs| && pmm.View().refs[FrameOf(slots[c].mappings[k])] == 1
      modifies this`archCalls, this`slots
      ensures OnlyEntryOf(old(slots), slots, c, old(slots)[c].mappings[k].virt)
      ensures Valid() && Seen() == old(Seen())
      ensures r <= 0 && (r < 0 ==> slots == old(slots))
      ensures r == Answer(archResult(old(archCalls))) && archCalls == old(archCalls) + 1
      ensures r == 0 ==> Writable(c, old(slots)[c].mappings[k].virt) && Open(c, old(slots)[c].mappings[k].virt)
      ensures forall d :: 0 <= d < |slots| && d != c ==> slots[d] == old(slots)[d]
    {
      hide SlotOk, Counted, AllFit, Sound, Spaces, Opened1;
      Reclaimed(slots, pmm.View(), others, mem, c, k);
      r := Remap(c, k, slots[c].mappings[k].phys);
    }

    /** Points the k-th mapping at `phys`, writable and no longer shared. */
    method Remap(c: nat, k: nat, phys: nat) returns (r: int)
      requires At(slots, c, k) && slots[c].used
      modifies this`archCalls, this`slots
      ensures OnlyEntryOf(old(slots), slots, c, old(slots)[c].mappings[k].virt)
      ensures r <= 0
      ensures slots == if r < 0 then old(slots) else old(slots)[c := Opened1(old(slots)[c], k, phys)]
      ensures r == Answer(archResult(old(archCalls))) && archCalls == old(archCalls) + 1
      ensures r == 0 ==> Writable(c, old(slots)[c].mappings[k].virt) && Open(c, old(slots)[c].mappings[k].virt)
      ensures |slots| == |old(slots)| && forall d :: 0 <= d < |slots| ==> slots[d].used == old(slots)[d].used
      ensures forall d :: 0 <= d < |slots| && d != c ==> slots[d] == old(slots)[d]
    {
      var m := slots[c].mappings[k];
      var writable := m.flags.(writable := true, cow := false);
      r := ArchMap(c, m.virt, phys, writable);
      if r < 0 { return; }
      slots := slots[c := slots[c].(mappings := slots[c].mappings[k := m.(phys := phys,
                                                                          flags := writable.(present := true))])];
      assert slots[c].mappings[k].virt == m.virt && MayWrite(slots[c].mappings[k].flags);
    }

    method Split(c: nat, k: nat) returns (r: int)
      requires Valid() && At(slots, c, k) && slots[c].used
      requires slots[c].mappings[k].flags.cow && slots[c].mappings[k].owned
      requires FrameOf(slots[c].mappings[k]) < |pmm.View().refs| && pmm.View().refs[FrameOf(slots[c].mappings[k])] > 1
      modifies this`archCalls, this`slots, this`mem, pmm`freePages, pmm`searchStart, pmm.bitmap, pmm.refs
      ensures OnlyEntryOf(old(slots), slots, c, old(slots)[c].mappings[k].virt)
      ensures Valid() && Seen() == old(Seen())
      ensures r <= 0 && (r < 0 ==> slots == old(slots) && pmm.View() == old(pmm.View()))
      ensures r == if old(pmm.freePages) == 0 then ENOMEM else Answer(archResult(old(archCalls)))
      ensures archCalls == if old(pmm.freePages) == 0 then old(archCalls) else old(archCalls) + 1
      ensures r == 0 ==> Writable(c, old(slots)[c].mappings[k].virt) && Open(c, old(slots)[c].mappings[k].virt)
      ensures forall d :: 0 <= d < |slots| && d != c ==> slots[d] == old(slots)[d]
    {
      hide SlotOk, Counted, AllFit, Sound, Spaces, Released, Taken, CountClear, Opened1, Inv, Writable, Open;
      ghost var before, p := slots, pmm.View();
      var shared := slots[c].mappings[k].phys;
      var replacement := AllocCopy(mem[shared]);
      if replacement == 0 { return ENOMEM; }
      Moved(before, p, others, old(mem), c, k, replacement);
      r := Remap(c, k, replacement);
      if r < 0 {
        pmm.Free(replacement);
      } else {
        pmm.Free(shared);
      }
    }

    // ----- fork -----

    /** vmm_clone_context: either the child sees exactly what the parent sees,
        or nothing changed: every space, every mapping, every count. */
    method CloneContext(source: int) returns (clone: int, ghost log: seq<Step>)
      requires Valid()
      modifies this`archCalls, this`slots, pmm`freePages, pmm`searchStart, pmm.bitmap, pmm.refs
      ensures Valid() && Seen() == ApplyAll(old(Seen()), log) && Landed(old(Seen()), log)
      ensures clone < 0 ==> log == [] && pmm.View() == old(pmm.View())
      ensures clone < 0 ==> forall c :: 0 <= c < |slots| ==> slots[c].mappings == old(slots)[c].mappings
      ensures old(archCalls) <= archCalls
      ensures clone < 0 ==>
        || Refused(archResult, old(archCalls), archCalls) || (forall i :: 0 <= i < |slots| ==> old(slots)[i].used)
        || (old(InUse(source)) && Saturates(old(pmm.View()), old(slots)[source].mappings))
      ensures clone < 0 ==> Refused(archResult, old(archCalls), archCalls) || KeepsOpen(old(slots), slots)
      ensures |slots| == |old(slots)| &&
        forall d :: 0 <= d < |slots| && d != source && old(slots)[d].used ==> slots[d] == old(slots)[d]
      ensures clone >= 0 ==> clone < |slots| && !old(InUse(clone)) && InUse(clone)
      ensures clone >= 0 && old(InUse(source)) ==>
        && CopiedSlot(old(slots)[source].mappings, slots[clone])
        && ForeignKept(old(slots)[source].mappings, old(slots)[source].table, slots[source].table)
      ensures clone >= 0 ==> log == if old(InUse(source)) then [New(clone), Fork(source, clone)] else [New(clone)]
    {
      hide SlotOk, Counted, AllFit, Sound, Spaces, Apply, Refused, Saturates, CopiedSlot, ForeignKept;
      clone, log := CreateContext();
      if clone < 0 || !InUse(source) || source == clone { return; }
      ghost var calls := archCalls;
      var ok := Populate(source, clone, old(slots));
      if !ok {
        if Refused(archResult, calls, archCalls) {
          RefusedLater(archResult, old(archCalls), calls, archCalls, archCalls);
        }
        return -1, [];
      }
      return clone, [New(clone), Fork(source, clone)];
    }

    /** The rest of a fork, when the child's space has been made. */
    method Populate(source: nat, clone: nat, ghost start: seq<Slot>) returns (ok: bool)
      requires Valid() && InUse(source) && clone < |slots| && clone != source && clone !in current
      requires Inv(start, pmm.View(), others) && |start| == |slots| && !start[clone].used
      requires slots == start[clone := Slot(true, [], map[], DYNAMIC_BASE)]
      requires Seen() == ApplyAll(Spaces(start, mem), [New(clone)]) && Landed(Spaces(start, mem), [New(clone)])
      modifies this`archCalls, this`slots, pmm`freePages, pmm`searchStart, pmm.bitmap, pmm.refs
      ensures Valid() && old(archCalls) <= archCalls && |slots| == |start|
      ensures forall d :: 0 <= d < |slots| && d != source && d != clone ==> slots[d] == start[d]
      ensures !ok ==> Seen() == Spaces(start, mem) && pmm.View() == old(pmm.View())
      ensures !ok ==> forall c :: 0 <= c < |slots| ==> slots[c].mappings == start[c].mappings
      ensures !ok ==>
        || Refused(archResult, old(archCalls), archCalls)
        || forall page :: UserOpen(start, source, page) ==> UserOpen(slots, source, page)
      ensures !ok ==>
        Refused(archResult, old(archCalls), archCalls) || Saturates(old(pmm.View()), start[source].mappings)
      ensures ok ==> CopiedSlot(start[source].mappings, slots[clone])
      ensures ok ==> ForeignKept(start[source].mappings, start[source].table, slots[source].table)
      ensures ok ==> InUse(clone) && Landed(Spaces(start, mem), [New(clone), Fork(source, clone)])
      ensures ok ==> Seen() == ApplyAll(Spaces(start, mem), [New(clone), Fork(source, clone)])
    {
      hide SlotOk, Counted, AllFit, Sound, Spaces, Apply, ApplyAll, Landed, Mid, RetainedAll, Refused, Saturates;
      hide Wired, ExactSlot, Halted, ForeignKept;
      ghost var created := slots;
      var original := slots[source].mappings;
      Begin(created, pmm.View(), others, source, clone, original);
      WiredBegin(created, pmm.View(), others, source, clone, original);
      var done := ShareAll(source, clone, original);
      if done < |original| {
        ghost var tried := archCalls;
        RollBack(source, clone, original, start, created, old(pmm.View()), done);
        if Refused(archResult, old(archCalls), tried) {
          RefusedLater(archResult, old(archCalls), old(archCalls), tried, archCalls);
        }
        if Refused(archResult, tried, archCalls) {
          RefusedLater(archResult, old(archCalls), tried, archCalls, archCalls);
        }
        return false;
      }
      assert forall d :: 0 <= d < |slots| && d != source && d != clone ==> slots[d] == start[d] by {
        MidOthers(created, slots, source, clone, original);
      }
      WiredForeign(created, slots, source, clone, original, |original|);
      WiredExact(created, slots, source, clone, original, |original|);
      MidCopied(created, slots, source, clone, original);
      Forked(start, created, slots, pmm.View(), others, mem, source, clone, original);
      slots := slots[clone := slots[clone].(nextFree := slots[source].nextFree)];
      return true;
    }

    /** The sharing loop: stops early when a page cannot be shared. */
    method ShareAll(source: nat, clone: nat, original: seq<Mapping>) returns (done: nat)
      requires Valid() && Mid(slots, slots, source, clone, original, 0, 0)
      requires Wired(slots, slots, source, clone, original, 0)
      modifies this`archCalls, this`slots, pmm`freePages, pmm`searchStart, pmm.bitmap, pmm.refs
      ensures Valid() && done <= |original|
      ensures done == |original| ==> Mid(old(slots), slots, source, clone, original, done, done)
      ensures done < |original| ==> Halted(old(slots), slots, source, clone, original, done)
      ensures done == |original| ==> Wired(old(slots), slots, source, clone, original, done)
      ensures pmm.View() == RetainedAll(old(pmm.View()), original[..done])
      ensures old(archCalls) <= archCalls
      ensures done < |original| ==>
        Refused(archResult, old(archCalls), archCalls) || Saturates(old(pmm.View()), original)
    {
      hide SlotOk, Counted, AllFit, Sound, Mid, Inv, Wired, ExactSlot, Halted;
      done := 0;
      MidSource(slots, source, clone, original);
      while done < |original|
        invariant done <= |original| && Valid() && old(archCalls) <= archCalls
        invariant Mid(old(slots), slots, source, clone, original, done, done)
        invariant Wired(old(slots), slots, source, clone, original, done)
        invariant pmm.View() == RetainedAll(old(pmm.View()), original[..done])
      {
        ghost var calls := archCalls;
        var ok := ShareOne(source, clone, original, done, old(slots), old(pmm.View()));
        if !ok {
          if Refused(archResult, calls, archCalls) {
            RefusedLater(archResult, old(archCalls), calls, archCalls, archCalls);
          } else {
            SaturatesAll(old(slots), old(pmm.View()), others, source, original, done);
          }
          return;
        }
        assert original[..done + 1][..done] == original[..done];
        done := done + 1;
      }
    }

    /** One page: protect the parent's mapping, take a reference, map it in the
        child. */
    method ShareOne(source: nat, clone: nat, original: seq<Mapping>, i: nat, ghost created: seq<Slot>,
                    ghost p: Frames)
      returns (ok: bool)
      requires Valid() && i < |original| && Mid(created, slots, source, clone, original, i, i)
      requires Wired(created, slots, source, clone, original, i) && Inv(created, p, others)
      modifies this`archCalls, this`slots, pmm`freePages, pmm`searchStart, pmm.bitmap, pmm.refs
      ensures Valid()
      ensures ok ==>
        && Mid(created, slots, source, clone, original, i + 1, i + 1)
        && pmm.View() == Retained(old(pmm.View()), original[i])
      ensures !ok ==> pmm.View() == old(pmm.View())
      ensures ok ==> Wired(created, slots, source, clone, original, i + 1)
      ensures old(archCalls) <= archCalls
      ensures !ok ==> Refused(archResult, old(archCalls), archCalls) || Saturates(old(pmm.View()), [original[i]])
      ensures !ok ==> Halted(created, slots, source, clone, original, i)
    {
      hide SlotOk, Counted, AllFit, Sound, Wired, Inv;
      ok := Protect(source, i);
      if !ok { return; }
      WiredHalf(created, old(slots), slots, p, others, source, clone, original, i,
                Pte(original[i].phys, Shared(original[i]).flags));
      Halfway(created, old(slots), slots, source, clone, original, i);
      ghost var half := slots;
      ChildRoom(half, pmm.View(), others, source, clone, original, i);
      ghost var calls := archCalls;
      ok := Give(source, clone, i);
      if !ok && Refused(archResult, calls, archCalls) {
        RefusedLater(archResult, old(archCalls), calls, archCalls, archCalls);
      }
      if ok {
        WiredOnward(created, half, slots, source, clone, original, i + 1, half[source].mappings[i]);
        Onward(created, half, slots, source, clone, original, i);
      }
    }

    method Protect(source: nat, i: nat) returns (ok: bool)
      requires Valid() && At(slots, source, i)
      modifies this`archCalls, this`slots
      ensures Valid()
      ensures old(archCalls) <= archCalls
      ensures (!ok ==> slots == old(slots) && Refused(archResult, old(archCalls), archCalls))
      ensures ok ==>
        |slots| == |old(slots)| && (forall d :: 0 <= d < |slots| && d != source ==> slots[d] == old(slots)[d])
      ensures ok ==>
        slots[source].used == old(slots)[source].used && slots[source].nextFree == old(slots)[source].nextFree
      ensures ok ==>
        var m := old(slots)[source].mappings[i];
        slots[source].table == if m.owned && (m.flags.writable || m.flags.cow)
                               then old(slots)[source].table[m.virt := Pte(m.phys, Shared(m).flags)]
                               else old(slots)[source].table
      ensures ok ==> slots[source].mappings == old(slots)[source].mappings[i := Shared(old(slots)[source].mappings[i])]
    {
      hide SlotOk, Counted, AllFit, Sound;
      var m := slots[source].mappings[i];
      if !(m.owned && (m.flags.writable || m.flags.cow)) {
        assert slots[source].mappings[i := m] == slots[source].mappings;
        return true;
      }
      var shared := m.flags.(writable := false, cow := true);
      Protected(slots, pmm.View(), others, source, i, shared);
      var r := ArchMap(source, m.virt, m.phys, shared);
      if r < 0 { return false; }
      ghost var s := old(slots)[source];
      var ms := slots[source].mappings[i := m.(flags := shared.(present := true))];
      slots := slots[source := slots[source].(mappings := ms)];
      assert slots == old(slots)[source := s.(mappings := s.mappings[i := Shared(m)],
                                              table := s.table[m.virt := Pte(m.phys, shared)])];
      return true;
    }

    method Give(source: nat, clone: nat, i: nat) returns (ok: bool)
      requires Valid() && At(slots, source, i) && clone < |slots| && clone != source && slots[clone].used
      requires slots[source].mappings[i].owned ==> !slots[source].mappings[i].flags.writable
      requires MappingOk(slots[source].mappings[i], pmm.limit)
      requires forall j :: 0 <= j < |slots[clone].mappings| ==>
        slots[clone].mappings[j].virt != slots[source].mappings[i].virt
      modifies this`archCalls, this`slots, pmm`freePages, pmm`searchStart, pmm.bitmap, pmm.refs
      ensures Valid()
      ensures !ok ==> slots == old(slots) && pmm.View() == old(pmm.View())
      ensures old(archCalls) <= archCalls
      ensures !ok ==>
        || |old(slots)[clone].mappings| >= MAX_MAPPINGS || Refused(archResult, old(archCalls), archCalls)
        || Saturates(old(pmm.View()), [old(slots)[source].mappings[i]])
      ensures ok ==> slots == old(slots)[clone := Extended(old(slots)[clone], old(slots)[source].mappings[i])]
      ensures ok ==> pmm.View() == Retained(old(pmm.View()), old(slots)[source].mappings[i])
    {
      hide SlotOk, Counted, AllFit, Sound, Released;
      ghost var before, p := slots, pmm.View();
      var m := slots[source].mappings[i];
      if m.owned {
        CountAt(slots, p, others, source, i);
        ok := pmm.Retain(m.phys);
        if !ok { return; }
        Returned(p, m);
      }
      assert pmm.View() == Retained(p, m);
      var r := Map(clone, m.virt, m.phys, m.flags);
      if r < 0 {
        if m.owned { pmm.Free(m.phys); }
        return false;
      }
      SetOwned(clone, before[clone], m.(owned := false), m.owned);
      Joined(before, p, others, source, i, clone);
      assert slots == before[clone := Extended(before[clone], m)];
      return true;
    }

    /** The failure path: restore the parent's permissions, then throw the
        half-built child away. */
    method RollBack(source: nat, clone: nat, original: seq<Mapping>, ghost start: seq<Slot>, ghost created: seq<Slot>,
                    ghost p: Frames, ghost i: nat)
      requires Valid() && i < |original| && clone !in current
      requires Inv(start, p, others) && |start| == |created| && clone < |start| && !start[clone].used
      requires created == start[clone := Slot(true, [], map[], DYNAMIC_BASE)]
      requires Halted(created, slots, source, clone, original, i)
      requires pmm.View() == RetainedAll(p, original[..i]) && source != clone
      modifies this`archCalls, this`slots, pmm`freePages, pmm`searchStart, pmm.bitmap, pmm.refs
      ensures old(archCalls) <= archCalls && Valid() && pmm.View() == p && Seen() == Spaces(start, mem)
      ensures forall c :: 0 <= c < |slots| ==> slots[c].mappings == start[c].mappings
      ensures |slots| == |start| && forall d :: 0 <= d < |slots| && d != source && d != clone ==> slots[d] == start[d]
      ensures Refused(archResult, old(archCalls), archCalls) ||
        forall page :: UserOpen(start, source, page) ==> UserOpen(slots, source, page)
    {
      hide SlotOk, Counted, AllFit, Sound, Spaces, RetainedAll, ReleasedAll, Covers, Wired, Rewired, UserOpen;
      hide Refused;
      ghost var entry, j := slots, if Mid(created, slots, source, clone, original, i, i) &&
        Wired(created, slots, source, clone, original, i) then i else i + 1;
      StillLooser(start, p, others, source, original, j);
      UndoCounts(start, p, others, source, i, slots[clone].mappings);
      Restore(source, original);
      DestroyContext(clone);
      assert SlotOk(EmptySlot, pmm.limit) by { NothingThere(pmm.limit); }
      Restored(start, created, entry, slots, p, others, mem, source, clone, original, i, j);
      if !Refused(archResult, old(archCalls), archCalls) {
        forall page ensures UserOpen(start, source, page) ==> UserOpen(slots, source, page) {
          Reopened(start, created, entry, slots, p, others, source, clone, original, i, j, page);
        }
      }
    }

    method Restore(source: nat, original: seq<Mapping>)
      requires source < |slots| && SlotsOk(slots, pmm.limit) && |original| == |slots[source].mappings|
      requires forall k :: 0 <= k < |original| ==> Looser(slots[source].mappings[k], original[k], pmm.limit)
      modifies this`archCalls, this`slots
      ensures old(archCalls) <= archCalls && SlotsOk(slots, pmm.limit) && slots[source].mappings == original
      ensures slots == old(slots)[source := old(slots)[source].(mappings := original, table := slots[source].table)]
      ensures Refused(archResult, old(archCalls), archCalls) ||
        Rewired(old(slots)[source], original, slots[source].table, |original|)
    {
      hide SlotOk, Rewired, Refused;
      RewiredBegin(slots[source], pmm.limit, original);
      ghost var ms := slots[source].mappings;
      for k := 0 to |original|
        invariant old(archCalls) <= archCalls && |slots| == |old(slots)| && SlotsOk(slots, pmm.limit)
        invariant |slots[source].mappings| == |original|
        invariant forall j :: 0 <= j < |original| ==> slots[source].mappings[j] == if j < k then original[j] else ms[j]
        invariant Refused(archResult, old(archCalls), archCalls) ||
          Rewired(old(slots)[source], original, slots[source].table, k)
        invariant slots == old(slots)[source :=
          old(slots)[source].(mappings := slots[source].mappings, table := slots[source].table)]
      {
        assert Looser(ms[k], original[k], pmm.limit);
        ghost var calls := archCalls;
        if Refused(archResult, old(archCalls), calls) {
          RefusedLater(archResult, old(archCalls), old(archCalls), calls, calls + 1);
        }
        RewiredNext(old(slots)[source], pmm.limit, original, slots[source].table, k);
        if slots[source].mappings[k].flags != original[k].flags {
          SlotRewrite(slots[source], pmm.limit, k, original[k], original[k].flags);
          SlotRelax(slots[source], pmm.limit, k, original[k]);
          var r := ArchMap(source, original[k].virt, original[k].phys, original[k].flags);
          if r < 0 { RefusedLater(archResult, old(archCalls), calls, archCalls, archCalls); }
          var restored := slots[source].mappings[k].(flags := original[k].flags);
          slots := slots[source := slots[source].(mappings := slots[source].mappings[k := restored])];
        }
      }
      assert slots[source].mappings == original;
    }

    // ----- unmapping -----

    /** vmm_unmap. For a page that is not there the page-table code answers -ENOENT if not even a table covers it,
        else 0; nothing changes either way. */
    method Unmap(c: nat, virt: nat) returns (r: int, ghost log: seq<Step>)
      requires Valid() && InUse(c)
      modifies this`archCalls, this`slots, pmm`freePages, pmm`searchStart, pmm.bitmap, pmm.refs
      ensures OnlyEntryOf(old(slots), slots, c, virt)
      ensures Valid() && Seen() == ApplyAll(old(Seen()), log) && Landed(old(Seen()), log)
      ensures virt == 0 || virt % PAGE_SIZE != 0 ==> r == EINVAL
      ensures virt > 0 && virt % PAGE_SIZE == 0 ==>
        r == if virt !in old(Seen())[c].pages && archResult(old(archCalls)) < 0 then ENOENT else 0
      ensures log == if virt > 0 && virt % PAGE_SIZE == 0 && virt in old(Seen())[c].pages then [Drop(c, virt)] else []
      ensures log == [] ==> slots == old(slots) && pmm.View() == old(pmm.View())
    {
      hide SlotOk, Counted, AllFit, Sound, Spaces, Apply, Released, Without, Backed;
      if virt == 0 || virt % PAGE_SIZE != 0 { return EINVAL, []; }
      TableSeen(slots, pmm.View(), others, mem, c, virt);
      if virt !in slots[c].table {
        r := archResult(archCalls);
        archCalls := archCalls + 1;
        return if r < 0 then ENOENT else 0, [];
      }
      ghost var before, p := slots, pmm.View();
      slots := slots[c := slots[c].(table := slots[c].table - {virt})];
      HasMapping(before, p, others, c, virt);
      for i := 0 to |slots[c].mappings|
        invariant slots == before[c := before[c].(table := before[c].table - {virt})] && pmm.Valid() && pmm.View() == p
        invariant forall j :: 0 <= j < i ==> before[c].mappings[j].virt != virt
      {
        if slots[c].mappings[i].virt == virt {
          Dropped(before, p, others, mem, c, i);
          if slots[c].mappings[i].owned { pmm.Free(slots[c].mappings[i].phys); }
          slots := slots[c := slots[c].(mappings := Without(slots[c].mappings, i))];
          assert slots == before[c := before[c].(mappings := Without(before[c].mappings, i),
                                                 table := before[c].table - {virt})];
          return 0, [Drop(c, virt)];
        }
      }
      return 0, [];
    }

    // ----- reading and writing user memory -----

    /** Writes through a mapping that may be written. */
    method WriteThrough(c: nat, k: nat, address: nat, bytes: seq<bv8>) returns (ghost log: seq<Step>)
      requires Valid() && At(slots, c, k) && slots[c].mappings[k].flags.writable
      requires slots[c].mappings[k].virt == PageOf(address) && address % PAGE_SIZE + |bytes| <= PAGE_SIZE
      modifies this`mem
      ensures Valid() && Seen() == ApplyAll(old(Seen()), log) && Landed(old(Seen()), log)
      ensures log == [Store(c, address, bytes)] && c < |old(Seen())| && PageOf(address) in old(Seen())[c].pages
    {
      hide SlotOk, Counted, AllFit, Sound, Spaces, Apply;
      var phys := slots[c].mappings[k].phys;
      Stored(slots, pmm.View(), others, mem, c, k, address, bytes);
      mem := mem[phys := Splice(mem[phys], address % PAGE_SIZE, bytes)];
      return [Store(c, address, bytes)];
    }

    /** A store instruction of a user program: the hardware entry decides. */
    method UserStore(c: nat, address: nat, value: bv8) returns (ok: bool, ghost log: seq<Step>)
      requires Valid() && InUse(c)
      modifies this`mem
      ensures Valid() && Seen() == ApplyAll(old(Seen()), log) && Landed(old(Seen()), log)
      ensures ok == (PageOf(address) in slots[c].table && slots[c].table[PageOf(address)].flags.user &&
        slots[c].table[PageOf(address)].flags.writable)
      ensures log == if ok then [Store(c, address, [value])] else []
      ensures ok ==> c < |old(Seen())| && PageOf(address) in old(Seen())[c].pages
      ensures ok ==>
        old(Seen())[c].pages[PageOf(address)].flags.user && old(Seen())[c].pages[PageOf(address)].flags.writable
    {
      hide SlotOk, Counted, AllFit, Sound, Spaces, Apply;
      var page := PageOf(address);
      if page !in slots[c].table || !slots[c].table[page].flags.user || !slots[c].table[page].flags.writable {
        return false, [];
      }
      HasMapping(slots, pmm.View(), others, c, page);
      ghost var k :| 0 <= k < |slots[c].mappings| && slots[c].mappings[k].virt == page;
      BackedBy(slots, pmm.View(), others, c, k);
      PageSeen(slots, pmm.View(), others, mem, c, k);
      Stored(slots, pmm.View(), others, mem, c, k, address, [value]);
      var phys := slots[c].table[page].phys;
      mem := mem[phys := Splice(mem[phys], address % PAGE_SIZE, [value])];
      return true, [Store(c, address, [value])];
    }

    /** vmm_handle_fault: the only thing a space can notice is a zeroed page
        where the stack or the heap may grow. */
    method HandleFault(address: nat, isWrite: bool) returns (r: int, ghost log: seq<Step>)
      requires Valid()
      modifies this`archCalls, this`slots, this`mem, this`proc, pmm`freePages, pmm`searchStart, pmm.bitmap, pmm.refs
      ensures Valid() && Seen() == ApplyAll(old(Seen()), log) && Landed(old(Seen()), log)
      ensures old(archCalls) <= archCalls && (r < 0 ==> slots == old(slots) && pmm.View() == old(pmm.View()))
      ensures FaultReason(address, isWrite, r, old(proc), old(Seen()), old(slots), old(pmm.freePages),
                          Refused(archResult, old(archCalls), archCalls))
      ensures OnlyEntryOf(old(slots), slots, SpaceOf(old(proc)), PageOf(address)) && KeepsOpen(old(slots), slots)
      ensures r == 0 && FaultOpens(address, isWrite, old(proc), old(Seen()), old(slots)) ==>
        && old(proc).Some? && Open(old(proc).value.mm, PageOf(address))
        && !CowPage(slots, old(proc).value.mm, PageOf(address))
      ensures proc == ProcAfter(old(proc), log) && FaultDone(address, isWrite, r, log, old(proc), old(Seen()), Seen())
    {
      hide SlotOk, Counted, AllFit, Sound, Spaces, Apply, Inv, PageOf, KeepsOpen, OnlyEntryOf, Demanded;
      hide ProcAfter;
      SameOpen(slots, SpaceOf(proc), PageOf(address));
      NoFault(proc);
      if proc.None? || !proc.value.userMode || proc.value.mm < 0 { return EFAULT, []; }
      var p := proc.value;
      var page := PageOf(address);
      PageAligned(address);
      var k := FindMapping(p.mm, page);
      if k >= 0 {
        r := ServePresent(p.mm, k, page, isWrite);
        hide FaultDone;
        FaultServed(address, isWrite, r, p, Seen());
        return r, [];
      }
      if p.mm < |slots| { Missing(slots, pmm.View(), others, mem, p.mm, page); }
      OneGrowth(p, page);
      r, log := Demand(p, address);
      if r == 0 { NowWritable(page, p.mm); }
      hide FaultDone;
      FaultGrew(address, isWrite, r, log, p, old(Seen()), Seen());
    }

    /** A fault on a page that is there. */
    method ServePresent(c: nat, k: nat, page: nat, isWrite: bool) returns (r: int)
      requires Valid() && At(slots, c, k) && slots[c].used && slots[c].mappings[k].virt == page
      requires page % PAGE_SIZE == 0
      modifies this`archCalls, this`slots, this`mem, pmm`freePages, pmm`searchStart, pmm.bitmap, pmm.refs
      ensures OnlyEntryOf(old(slots), slots, c, page) && KeepsOpen(old(slots), slots)
      ensures Valid() && Seen() == old(Seen()) && c < |Seen()| && page in Seen()[c].pages
      ensures r <= 0 && (!isWrite ==> r == 0) && old(archCalls) <= archCalls
      ensures r < 0 ==> slots == old(slots) && pmm.View() == old(pmm.View())
      ensures isWrite && r == 0 ==> Seen()[c].pages[page].flags.writable
      ensures isWrite && !MayWrite(Seen()[c].pages[page].flags) ==> r == EACCES
      ensures isWrite && MayWrite(Seen()[c].pages[page].flags) && r < 0 ==>
        old(pmm.freePages) == 0 || Refused(archResult, old(archCalls), archCalls)
      ensures isWrite && r == 0 && old(CowPage(slots, c, page)) ==> Open(c, page) && !CowPage(slots, c, page)
    {
      hide SlotOk, Counted, AllFit, Sound, Spaces, Inv, SharedPage, KeepsOpen, OnlyEntryOf;
      SameOpen(slots, c, page);
      PageSeen(slots, pmm.View(), others, mem, c, k);
      BreakIs(slots, pmm.View(), others, c, k, page);
      var flags := slots[c].mappings[k].flags;
      if isWrite && flags.cow {
        r := BreakCow(c, page);
        if r == 0 { NowWritable(page, c); }
        return;
      }
      return if isWrite && !flags.writable then EACCES else 0;
    }

    lemma NowWritable(page: nat, c: int)
      requires Valid() && Writable(c, page)
      ensures c < |Seen()| && page in Seen()[c].pages && Seen()[c].pages[page].flags.writable
      ensures !CowPage(slots, c, page)
    {
      hide AllFit, Counted, Sound, Spaces, Inv, CowPage, SharedPage;
      var k :|
        0 <= k < |slots[c].mappings| && slots[c].mappings[k].virt == page && MayWrite(slots[c].mappings[k].flags);
      PageSeen(slots, pmm.View(), others, mem, c, k);
      BreakIs(slots, pmm.View(), others, c, k, page);
    }

    /** A zeroed page for a process, of its stack or of its heap. */
    method Supply(c: nat, page: nat) returns (r: int, ghost log: seq<Step>)
      requires Valid() && !Mapped(c, page) && page % PAGE_SIZE == 0
      modifies this`archCalls, this`slots, this`mem, pmm`freePages, pmm`searchStart, pmm.bitmap, pmm.refs
      ensures OnlyEntryOf(old(slots), slots, c, page) && KeepsOpen(old(slots), slots)
      ensures Valid() && Seen() == ApplyAll(old(Seen()), log) && Landed(old(Seen()), log)
      ensures r <= 0 && log == if r < 0 then [] else [Grow(c, page, UserData())]
      ensures r == 0 ==>
        && c < |old(Seen())| && page !in old(Seen())[c].pages
        && Writable(c, page) && Open(c, page)
      ensures old(archCalls) <= archCalls && (r < 0 ==> slots == old(slots) && pmm.View() == old(pmm.View()))
      ensures r < 0 ==>
        || old(pmm.freePages) == 0 || Refused(archResult, old(archCalls), archCalls)
        || Unplaceable(old(slots), c, page)
    {
      hide SlotOk, Counted, AllFit, Sound, Spaces, Apply, Inv, KeepsOpen, OnlyEntryOf, Refused;
      ghost var before, frames := slots, pmm.View();
      if InUse(c) { Absent(slots, pmm.View(), others, mem, c, page); }
      r, log := MapAllocated(c, page, Flags(false, true, true, false, false, false));
      PlacedOpen(before, frames, slots, pmm.View(), others, c, page);
    }

    /** A fault on a page that is not there. */
    method Demand(p: Process, address: nat) returns (r: int, ghost log: seq<Step>)
      requires Valid() && proc == Some(p) && p.mm >= 0 && !Mapped(p.mm, PageOf(address))
      modifies this`archCalls, this`slots, this`mem, this`proc, pmm`freePages, pmm`searchStart, pmm.bitmap, pmm.refs
      ensures OnlyEntryOf(old(slots), slots, p.mm, PageOf(address)) && KeepsOpen(old(slots), slots)
      ensures Valid() && Seen() == ApplyAll(old(Seen()), log) && Landed(old(Seen()), log)
      ensures proc == ProcAfter(Some(p), log)
      ensures r <= 0 && log == if r < 0 then [] else [Grow(p.mm, PageOf(address), UserData())]
      ensures !Demanded(p, address) ==> r == EFAULT
      ensures r == 0 ==> p.mm < |old(Seen())| && PageOf(address) !in old(Seen())[p.mm].pages && Demanded(p, address)
      ensures r == 0 ==> Writable(p.mm, PageOf(address)) && Open(p.mm, PageOf(address))
      ensures old(archCalls) <= archCalls && (r < 0 ==> slots == old(slots) && pmm.View() == old(pmm.View()))
      ensures r < 0 && Demanded(p, address) ==>
        || old(pmm.freePages) == 0 || Refused(archResult, old(archCalls), archCalls)
        || Unplaceable(old(slots), p.mm, PageOf(address))
    {
      hide SlotOk, Counted, AllFit, Sound, Spaces, Apply, Inv, PageOf, KeepsOpen, OnlyEntryOf, Refused, Unplaceable;
      hide ApplyAll, Landed;
      var page := PageOf(address);
      PageAligned(address);
      SameOpen(slots, p.mm, page);
      LogNil(Seen());
      OneGrowth(p, page);
      if page < p.stackBottom && page >= StackLimit(p) && page + PAGE_SIZE == p.stackBottom {
        r, log := Supply(p.mm, page);
        if r < 0 { return; }
        proc := Some(p.(stackBottom := page));
        return;
      }
      if page >= p.brkStart && address < p.brkEnd {
        r, log := Supply(p.mm, page);
        return;
      }
      return EFAULT, [];
    }

    /** vmm_copy_to_user: the bytes land in order, page by page, in the target
        space only; a failure leaves a prefix written. */
    method CopyToUser(c: int, destination: nat, data: seq<bv8>) returns (r: int, ghost log: seq<Step>)
      requires Valid()
      modifies this`archCalls, this`slots, this`mem, this`proc, pmm`freePages, pmm`searchStart, pmm.bitmap, pmm.refs
      ensures Valid() && Seen() == ApplyAll(old(Seen()), log) && Landed(old(Seen()), log)
      ensures r <= 0 && Bytes(log) <= data
      ensures r == 0 <==> Bytes(log) == data && c >= 0 && (data == [] || ValidUserRange(destination, |data|))
      ensures log != [] ==> c >= 0 && Contiguous(log, c, SpaceOf(old(proc)), destination)
      ensures c < 0 || (data != [] && !ValidUserRange(destination, |data|)) ==> r == EFAULT && log == []
      ensures proc == ProcAfter(old(proc), log) && Faulted(log, old(proc))
      ensures old(archCalls) <= archCalls && KeepsOpen(old(slots), slots)
      ensures r < 0 && c >= 0 && (data == [] || ValidUserRange(destination, |data|)) ==>
        || StoreHindered(Seen(), proc, slots, c, destination + |Bytes(log)|) || pmm.freePages == 0
        || Refused(archResult, old(archCalls), archCalls)
    {
      hide Valid, Inv, Seen, Spaces, Apply, Landed, ApplyAll, PageOf, ValidUserRange, Contiguous, Bytes, ProcAfter;
      hide Faulted, StoreHindered, Refused, KeepsOpen;
      SameOpen(slots, c, destination);
      log := [];
      LogNil(Seen());
      NoFault(proc);
      LogStart(c, SpaceOf(proc), destination);
      if c < 0 { return EFAULT, []; }
      if |data| > 0 && !ValidUserRange(destination, |data|) { return EFAULT, []; }
      var done := 0;
      ghost var mm := SpaceOf(proc);
      while done < |data|
        invariant Valid() && done <= |data| && Bytes(log) == data[..done] && Contiguous(log, c, mm, destination)
        invariant Seen() == ApplyAll(old(Seen()), log) && Landed(old(Seen()), log)
        invariant old(archCalls) <= archCalls && KeepsOpen(old(slots), slots)
        invariant mm == SpaceOf(proc) && proc == ProcAfter(old(proc), log) && Faulted(log, old(proc))
      {
        ghost var step;
        ghost var calls, before := archCalls, slots;
        var chunk := PAGE_SIZE - (destination + done) % PAGE_SIZE;
        if chunk > |data| - done { chunk := |data| - done; }
        r, step := CopyChunk(c, destination + done, data[done..done + chunk], mm);
        OpenThen(old(slots), before, slots);
        LogJoin(log, step, c, mm, destination);
        LogSplice(old(Seen()), log, step);
        FaultsJoin(old(proc), log, step);
        log := log + step;
        if r < 0 {
          if Refused(archResult, calls, archCalls) {
            RefusedLater(archResult, old(archCalls), calls, archCalls, archCalls);
          }
          return;
        }
        assert data[..done] + data[done..done + chunk] == data[..done + chunk];
        done := done + chunk;
      }
      assert data[..done] == data;
      return 0, log;
    }

    /** One page of a copy to user memory: fault it in, split it, write it. */
    method CopyChunk(c: nat, address: nat, bytes: seq<bv8>, ghost mm: int) returns (r: int, ghost log: seq<Step>)
      requires Valid() && 0 < |bytes| && address % PAGE_SIZE + |bytes| <= PAGE_SIZE
      requires mm == SpaceOf(proc)
      modifies this`archCalls, this`slots, this`mem, this`proc, pmm`freePages, pmm`searchStart, pmm.bitmap, pmm.refs
      ensures Valid() && Seen() == ApplyAll(old(Seen()), log) && Landed(old(Seen()), log)
      ensures mm == SpaceOf(proc) && proc == ProcAfter(old(proc), log) && Faulted(log, old(proc))
      ensures old(archCalls) <= archCalls && KeepsOpen(old(slots), slots)
      ensures r < 0 ==>
        || StoreHindered(Seen(), proc, slots, c, address) || pmm.freePages == 0
        || Refused(archResult, old(archCalls), archCalls)
      ensures r <= 0 && Bytes(log) == (if r == 0 then bytes else []) && Contiguous(log, c, mm, address)
    {
      hide Inv, Seen, Spaces, Apply, PageOf, Landed, Contiguous, Bytes, ApplyAll, ProcAfter, Faulted, FaultDone;
      hide FaultReason, Refused, Serves, Unplaceable, MayStore, KeepsOpen;
      var ignored;
      ghost var fault, store;
      ignored, fault := HandleFault(address, true);
      FaultIs(address, true, ignored, fault, old(proc), old(Seen()), Seen());
      FaultLog(old(Seen()), fault, c, mm, address);
      ghost var calls, mid, between := archCalls, Seen(), slots;
      r, store := StoreChunk(c, address, bytes);
      OpenThen(old(slots), between, slots);
      if r == 0 {
        StoreLog(old(Seen()), fault, c, mm, address, bytes);
        StoreNoFault(old(proc), fault, Store(c, address, bytes));
        return 0, fault + store;
      }
      LogNil(Seen());
      LogNil(ApplyAll(old(Seen()), fault));
      if Refused(archResult, calls, archCalls) {
        RefusedLater(archResult, old(archCalls), calls, archCalls, archCalls);
      }
      if Refused(archResult, old(archCalls), calls) {
        RefusedLater(archResult, old(archCalls), old(archCalls), calls, archCalls);
      }
      if !(c < |mid| && PageOf(address) in mid[c].pages) {
        WhyMissing(address, true, ignored, fault, old(proc), old(Seen()), mid, old(slots), old(pmm.freePages),
                   Refused(archResult, old(archCalls), calls), c);
      }
      return r, fault;
    }

    /** The write itself, after the page has been split if it was shared. */
    method StoreChunk(c: nat, address: nat, bytes: seq<bv8>) returns (r: int, ghost log: seq<Step>)
      requires Valid() && 0 < |bytes| && address % PAGE_SIZE + |bytes| <= PAGE_SIZE
      modifies this`archCalls, this`slots, this`mem, pmm`freePages, pmm`searchStart, pmm.bitmap, pmm.refs
      ensures Valid() && Seen() == ApplyAll(old(Seen()), log) && Landed(old(Seen()), log)
      ensures r <= 0 && log == if r == 0 then [Store(c, address, bytes)] else []
      ensures old(archCalls) <= archCalls && KeepsOpen(old(slots), slots)
      ensures r < 0 ==>
        || !MayStore(Seen(), c, address) || pmm.freePages == 0 || Refused(archResult, old(archCalls), archCalls)
      ensures !(c < |old(Seen())| && PageOf(address) in old(Seen())[c].pages) ==>
        r < 0 && slots == old(slots) && pmm.View() == old(pmm.View())
      ensures r == 0 ==> c < |old(Seen())| && PageOf(address) in old(Seen())[c].pages
    {
      hide Inv, Seen, Spaces, Apply, PageOf, KeepsOpen;
      SameOpen(slots, c, address);
      var k := FindMapping(c, address);
      StoreFacts(c, k, address);
      if k >= 0 && slots[c].mappings[k].flags.cow {
        PageAligned(address);
        r := BreakCow(c, PageOf(address));
        if r < 0 { return r, []; }
        k := FindMapping(c, address);
        StoreFacts(c, k, address);
      }
      if k < 0 || !slots[c].mappings[k].flags.user || !slots[c].mappings[k].flags.writable { return EFAULT, []; }
      log := WriteThrough(c, k, address, bytes);
      return 0, log;
    }

    /** What the record of a page says about storing there. */
    lemma StoreFacts(c: nat, k: int, address: nat)
      requires Valid() && (k < 0 <==> !Mapped(c, PageOf(address)))
      requires k >= 0 ==> InUse(c) && k < |slots[c].mappings| && slots[c].mappings[k].virt == PageOf(address)
      ensures k < 0 ==> !(c < |Seen()| && PageOf(address) in Seen()[c].pages)
      ensures k >= 0 ==> c < |Seen()| && PageOf(address) in Seen()[c].pages
      ensures k >= 0 && !slots[c].mappings[k].flags.user ==> !MayStore(Seen(), c, address)
      ensures k >= 0 && !slots[c].mappings[k].flags.writable && !slots[c].mappings[k].flags.cow ==>
        !MayStore(Seen(), c, address)
      ensures k >= 0 && slots[c].mappings[k].flags.cow && !CowPage(slots, c, PageOf(address)) ==>
        !MayStore(Seen(), c, address)
      ensures k >= 0 && Writable(c, PageOf(address)) ==> slots[c].mappings[k].flags.writable
    {
      hide Inv, Spaces, PageOf;
      if k >= 0 {
        PageSeen(slots, pmm.View(), others, mem, c, k);
        BreakIs(slots, pmm.View(), others, c, k, PageOf(address));
        forall i | 0 <= i < |slots[c].mappings| && slots[c].mappings[i].virt == PageOf(address) ensures i == k {
          OneMapping(slots, pmm.View(), others, c, i, k);
        }
      } else if c < |slots| {
        Missing(slots, pmm.View(), others, mem, c, PageOf(address));
      }
    }

    /** vmm_copy_from_user: on success, exactly the bytes the space holds. */
    method CopyFromUser(c: int, source: nat, size: nat) returns (r: int, out: seq<bv8>, ghost log: seq<Step>)
      requires Valid()
      modifies this`archCalls, this`slots, this`mem, this`proc, pmm`freePages, pmm`searchStart, pmm.bitmap, pmm.refs
      ensures Valid() && Seen() == ApplyAll(old(Seen()), log) && Landed(old(Seen()), log)
      ensures proc == ProcAfter(old(proc), log) && Faulted(log, old(proc)) && GrowsIn(log, source, size)
      ensures r <= 0 && (r == 0 ==> |out| == size && HoldsAll(Seen(), c, source, out)) && (r < 0 ==> out == [])
      ensures r == 0 <==> c >= 0 && (size == 0 || ValidUserRange(source, size)) && AllReadable(Seen(), c, source, size)
      ensures old(archCalls) <= archCalls && KeepsOpen(old(slots), slots)
      ensures r < 0 && c >= 0 && (size == 0 || ValidUserRange(source, size)) ==>
        || SomeHindered(Seen(), proc, slots, c, source, size) || pmm.freePages == 0
        || Refused(archResult, old(archCalls), archCalls)
      ensures c < 0 || (size > 0 && !ValidUserRange(source, size)) ==> r == EFAULT && log == []
    {
      hide Inv, Seen, Spaces, Apply, Landed, ApplyAll, PageOf, ValidUserRange, HoldsAll, ProcAfter, Faulted, GrowsIn;
      hide Valid, Readable, ReadHindered, Refused, KeepsOpen;
      SameOpen(slots, c, source);
      log, out := [], [];
      LogNil(Seen());
      NoFault(proc);
      NoGrowth(source, size);
      if c < 0 { return EFAULT, [], []; }
      if size > 0 && !ValidUserRange(source, size) { return EFAULT, [], []; }
      HoldsNil(Seen(), c, source);
      while |out| < size
        invariant old(archCalls) <= archCalls && KeepsOpen(old(slots), slots)
        invariant Valid() && |out| <= size && HoldsAll(Seen(), c, source, out)
        invariant Seen() == ApplyAll(old(Seen()), log) && Landed(old(Seen()), log)
        invariant proc == ProcAfter(old(proc), log) && Faulted(log, old(proc)) && GrowsIn(log, source, size)
      {
        var bytes;
        ghost var fault, before, calls, start := [], Seen(), archCalls, slots;
        r, bytes, fault := ReadChunk(c, source + |out|, size - |out|);
        OpenThen(old(slots), start, slots);
        GrowLog(old(Seen()), log, fault);
        FaultsJoin(old(proc), log, fault);
        GrowthJoin(log, fault, source, size, |out|);
        log := log + fault;
        if r < 0 {
          if Refused(archResult, calls, archCalls) {
            RefusedLater(archResult, old(archCalls), calls, archCalls, archCalls);
          }
          return r, [], log;
        }
        StillHolds(before, fault, c, source, out);
        HoldsJoin(Seen(), c, source, out, bytes);
        out := out + bytes;
      }
      HeldReadable(Seen(), c, source, out);
      return 0, out, log;
    }

    /** One page of a copy from user memory. */
    method ReadChunk(c: nat, address: nat, want: nat) returns (r: int, bytes: seq<bv8>, ghost log: seq<Step>)
      requires Valid() && want > 0
      modifies this`archCalls, this`slots, this`mem, this`proc, pmm`freePages, pmm`searchStart, pmm.bitmap, pmm.refs
      ensures Valid() && Seen() == ApplyAll(old(Seen()), log)
      ensures proc == ProcAfter(old(proc), log) && Faulted(log, old(proc)) && |log| <= 1
      ensures log != [] ==>
        && log[0].Grow? && log[0].page == PageOf(address) && log[0].c < |old(Seen())|
        && log[0].page !in old(Seen())[log[0].c].pages
      ensures old(archCalls) <= archCalls && KeepsOpen(old(slots), slots)
      ensures r < 0 ==>
        || ReadHindered(Seen(), proc, slots, c, address) || pmm.freePages == 0
        || Refused(archResult, old(archCalls), archCalls)
      ensures r <= 0 && (r == 0 ==> 0 < |bytes| <= want && HoldsAll(Seen(), c, address, bytes))
      ensures (r < 0 ==> !Readable(Seen(), c, address))
    {
      hide Valid, Inv, Seen, Spaces, Apply, ApplyAll, HoldsAll, PageOf, ProcAfter, Faulted, FaultDone, FaultReason;
      hide Refused, Serves, Unplaceable, Readable, KeepsOpen;
      var ignored;
      ignored, log := HandleFault(address, false);
      FaultIs(address, false, ignored, log, old(proc), old(Seen()), Seen());
      r, bytes := FetchChunk(c, address, want);
      if !(c < |Seen()| && PageOf(address) in Seen()[c].pages) {
        WhyMissing(address, false, ignored, log, old(proc), old(Seen()), Seen(), old(slots), old(pmm.freePages),
                   Refused(archResult, old(archCalls), archCalls), c);
      }
    }

    /** The bytes of one page, if it is there and a user page. */
    method FetchChunk(c: nat, address: nat, want: nat) returns (r: int, bytes: seq<bv8>)
      requires Valid() && want > 0
      ensures r == 0 || (r == EFAULT && bytes == [])
      ensures r == 0 <==> Readable(Seen(), c, address)
      ensures r == 0 <==>
        c < |Seen()| && PageOf(address) in Seen()[c].pages && Seen()[c].pages[PageOf(address)].flags.user
      ensures r == 0 ==> 0 < |bytes| <= want && HoldsAll(Seen(), c, address, bytes)
    {
      hide Inv, Spaces, HoldsAll, PageOf;
      bytes := [];
      var k := FindMapping(c, address);
      if k < 0 {
        if c < |slots| { Missing(slots, pmm.View(), others, mem, c, PageOf(address)); }
        return EFAULT, [];
      }
      PageSeen(slots, pmm.View(), others, mem, c, k);
      if !slots[c].mappings[k].flags.user { return EFAULT, []; }
      var chunk := PAGE_SIZE - address % PAGE_SIZE;
      if chunk > want { chunk := want; }
      ReadBack(slots, pmm.View(), others, mem, c, k, address, chunk);
      bytes := mem[slots[c].mappings[k].phys][address % PAGE_SIZE..address % PAGE_SIZE + chunk];
      return 0, bytes;
    }
  }

  /** The page is one of a space that a write has to split off, and its frame is the space's own. */
  ghost predicate CowPage(slots: seq<Slot>, c: int, page: nat) {
    exists k :: At(slots, c, k) && slots[c].used && CowMapping(slots[c].mappings[k], page)
  }

  ghost predicate CowMapping(m: Mapping, page: nat) { m.virt == page && m.flags.cow && m.owned }

  /** Somebody else uses the frame of such a page too. */
  ghost predicate SharedPage(slots: seq<Slot>, p: Frames, c: int, page: nat) {
    exists k :: At(slots, c, k) && slots[c].used && CowMapping(slots[c].mappings[k], page) &&
      FrameOf(slots[c].mappings[k]) < |p.refs| && p.refs[FrameOf(slots[c].mappings[k])] > 1
  }

  /** What break_cow answers: -EACCES for a page that is not to be split, -ENOMEM if it has to be copied and there is no
      frame, else what the page-table code says. */
  ghost function BreakCode(slots: seq<Slot>, p: Frames, c: int, page: nat, answer: int): int {
    if !CowPage(slots, c, page) then EACCES
    else if SharedPage(slots, p, c, page) && p.free == 0 then ENOMEM
    else Answer(answer)
  }

  lemma OneMapping(slots: seq<Slot>, p: Frames, others: multiset<nat>, c: nat, i: nat, j: nat)
    requires Inv(slots, p, others) && At(slots, c, i) && At(slots, c, j)
    requires slots[c].mappings[i].virt == slots[c].mappings[j].virt
    ensures i == j
  {
    hide AllFit, Counted, Sound;
    assert SlotOk(slots[c], |p.refs|);
  }

  lemma BreakIs(slots: seq<Slot>, p: Frames, others: multiset<nat>, c: nat, k: nat, page: nat)
    requires Inv(slots, p, others) && At(slots, c, k) && slots[c].used && slots[c].mappings[k].virt == page
    ensures CowPage(slots, c, page) <==> slots[c].mappings[k].flags.cow && slots[c].mappings[k].owned
    ensures CowPage(slots, c, page) && FrameOf(slots[c].mappings[k]) < |p.refs| ==>
      (SharedPage(slots, p, c, page) <==> p.refs[FrameOf(slots[c].mappings[k])] > 1)
  {
    hide Inv;
    forall j | At(slots, c, j) && slots[c].mappings[j].virt == page ensures j == k {
      OneMapping(slots, p, others, c, j, k);
    }
  }

  lemma AlignedPage(virt: nat)
    requires virt % PAGE_SIZE == 0
    ensures PageOf(virt) == virt
  {
  }

  lemma LogSplice(a: seq<Space>, x: seq<Step>, y: seq<Step>)
    requires Landed(a, x) && Landed(ApplyAll(a, x), y)
    ensures Landed(a, x + y) && ApplyAll(a, x + y) == ApplyAll(ApplyAll(a, x), y)
  {
    hide Apply;
    ApplyAllConcat(a, x, y);
    LandedConcat(a, x, y);
  }

  lemma {:induction false} LandedConcat(a: seq<Space>, x: seq<Step>, y: seq<Step>)
    requires Landed(a, x) && Landed(ApplyAll(a, x), y)
    ensures Landed(a, x + y)
  {
    hide Apply;
    if y == [] {
      assert x + y == x;
    } else {
      var n := |y| - 1;
      var b, e := ApplyAll(ApplyAll(a, x), y[..n]), y[n];
      assert Landed(ApplyAll(a, x), y[..n]) && Target(e) < |a| && (e.Store? ==> PageOf(e.address) in b[e.c].pages)
        && (e.Grow? || e.Bind? ==> e.page !in b[e.c].pages) && (e.New? || e.Fork? ==> b[Target(e)].pages == map[]);
      hide Landed, ApplyAll;
      LandedConcat(a, x, y[..n]);
      ApplyAllConcat(a, x, y[..n]);
      assert x + y == (x + y[..n]) + [e];
      LandedOne(a, x + y[..n], e);
    }
  }

  // ----- what faults do -----

  function SpaceOf(p: Option<Process>): int { if p.Some? then p.value.mm else KERNEL }

  /** The next page of the stack is the new bottom. */
  function StackGrown(p: Process, page: nat): Process {
    if page < p.stackBottom && page >= StackLimit(p) && page + PAGE_SIZE == p.stackBottom then p.(stackBottom := page)
    else p
  }

  /** The process after its faults brought pages. */
  ghost function ProcAfter(p: Option<Process>, log: seq<Step>): Option<Process> {
    if log == [] then p
    else
      var q, e := ProcAfter(p, log[..|log| - 1]), log[|log| - 1];
      if q.Some? && e.Grow? then Some(StackGrown(q.value, e.page)) else q
  }

  /** Pages appear only in the space of the process, where it may have them. */
  ghost predicate Faulted(log: seq<Step>, p: Option<Process>) {
    log == [] ||
      var q, e := ProcAfter(p, log[..|log| - 1]), log[|log| - 1];
      && Faulted(log[..|log| - 1], p)
      && (e.Grow? ==> q.Some? && q.value.mm == e.c && e.flags == UserData() && Demanded(q.value, e.page))
  }

  /** Nothing can be mapped at a page of a space. */
  ghost predicate Unplaceable(slots: seq<Slot>, c: int, page: nat) {
    !(0 <= c < |slots|) || !slots[c].used || page == 0 || |slots[c].mappings| >= MAX_MAPPINGS
  }

  /** Why a fault of a process is refused: a write to a page that is there if the page may not be written, with
      -EACCES; otherwise, and for a missing page the process may have, only want of a frame or a mapping, or the
      page-table code. */
  ghost predicate FaultReason(address: nat, isWrite: bool, r: int, p: Option<Process>, a: seq<Space>, slots: seq<Slot>,
                              free: nat, refused: bool)
  {
    p.Some? && p.value.userMode && p.value.mm >= 0 ==>
      var mm, page := p.value.mm, PageOf(address);
      if mm < |a| && page in a[mm].pages then
        isWrite ==>
          if MayWrite(a[mm].pages[page].flags) then r < 0 ==> free == 0 || refused else r == EACCES
      else
        Demanded(p.value, address) && r < 0 ==> free == 0 || refused || Unplaceable(slots, mm, page)
  }

  /** The permission to write, as a process has it; a foreign page marked copy-on-write cannot be split. */
  predicate MayWrite(flags: Flags) { flags.writable && !flags.cow }

  /** Bytes can be stored for a space at an address. */
  ghost predicate MayStore(a: seq<Space>, c: nat, address: nat) {
    && c < |a| && PageOf(address) in a[c].pages
    && a[c].pages[PageOf(address)].flags.user && MayWrite(a[c].pages[PageOf(address)].flags)
  }

  /** The running process may have the page of this address in its own space. */
  ghost predicate Serves(p: Option<Process>, c: int, address: nat) {
    p.Some? && p.value.userMode && p.value.mm == c && Demanded(p.value, address)
  }

  /** A missing page that no fault brings. */
  ghost predicate Unserved(p: Option<Process>, slots: seq<Slot>, c: nat, address: nat) {
    !Serves(p, c, address) || Unplaceable(slots, c, PageOf(address))
  }

  /** Why a byte cannot be stored, apart from want of frames and a refusal. */
  ghost predicate StoreHindered(a: seq<Space>, p: Option<Process>, slots: seq<Slot>, c: nat, address: nat) {
    if c < |a| && PageOf(address) in a[c].pages then !MayStore(a, c, address) else Unserved(p, slots, c, address)
  }

  /** Why a byte cannot be read. */
  ghost predicate ReadHindered(a: seq<Space>, p: Option<Process>, slots: seq<Slot>, c: nat, address: nat) {
    if c < |a| && PageOf(address) in a[c].pages then !a[c].pages[PageOf(address)].flags.user
    else Unserved(p, slots, c, address)
  }

  ghost predicate SomeHindered(a: seq<Space>, p: Option<Process>, slots: seq<Slot>, c: nat, start: nat, size: nat) {
    exists x: nat :: start <= x < start + size && ReadHindered(a, p, slots, c, x)
  }

  lemma WhyMissing(address: nat, isWrite: bool, r: int, log: seq<Step>, p: Option<Process>, a: seq<Space>,
                   b: seq<Space>, slots: seq<Slot>, free: nat, refused: bool, c: nat)
    requires FaultDone(address, isWrite, r, log, p, a, b)
    requires FaultReason(address, isWrite, r, p, a, slots, free, refused)
    requires !(c < |b| && PageOf(address) in b[c].pages)
    ensures Serves(ProcAfter(p, log), c, address) ==>
      r < 0 && (free == 0 || refused || Unplaceable(slots, c, PageOf(address)))
  {
    hide Demanded, Unplaceable, PageOf, Faulted;
    FaultIs(address, isWrite, r, log, p, a, b);
    NoFault(p);
  }

  /** A fault that, served, makes the hardware let the page be written: the page was missing, or the write had to split
      it. */
  ghost predicate FaultOpens(address: nat, isWrite: bool, p: Option<Process>, a: seq<Space>, slots: seq<Slot>) {
    && p.Some? && 0 <= p.value.mm < |a|
    && (PageOf(address) !in a[p.value.mm].pages || (isWrite && CowPage(slots, p.value.mm, PageOf(address))))
  }

  /** A fault served or refused: without a process in user mode it is refused; a page that
      is there satisfies a read, and a write exactly if it may be written; a page that is
      not there appears, zeroed, only where the process may have it. */
  ghost predicate FaultDone(address: nat, isWrite: bool, r: int, log: seq<Step>, p: Option<Process>, a: seq<Space>,
                            b: seq<Space>)
  {
    var page := PageOf(address);
    && r <= 0 && Faulted(log, p)
    && if p.None? || !p.value.userMode || p.value.mm < 0 then r == EFAULT && log == []
       else
         var mm := p.value.mm;
         if mm < |a| && page in a[mm].pages then
           && log == [] && mm < |b| && page in b[mm].pages && (!isWrite ==> r == 0)
           && (isWrite && r == 0 ==> b[mm].pages[page].flags.writable)
         else
           && (!Demanded(p.value, address) ==> r == EFAULT)
           && (r < 0 ==> log == [])
           && (r == 0 ==> mm < |a| && log == [Grow(mm, page, UserData())])
           && (r == 0 ==> mm < |b| && page in b[mm].pages && b[mm].pages[page].flags.writable)
  }

  /** A fault on a missing page. */
  lemma FaultGrew(address: nat, isWrite: bool, r: int, log: seq<Step>, p: Process, a: seq<Space>, b: seq<Space>)
    requires p.userMode && p.mm >= 0 && !(p.mm < |a| && PageOf(address) in a[p.mm].pages) && r <= 0
    requires log == (if r < 0 then [] else [Grow(p.mm, PageOf(address), UserData())])
    requires if r < 0 then !Demanded(p, address) ==> r == EFAULT else p.mm < |a| && Demanded(p, address)
    requires r == 0 ==>
      p.mm < |b| && PageOf(address) in b[p.mm].pages && b[p.mm].pages[PageOf(address)].flags.writable
    ensures FaultDone(address, isWrite, r, log, Some(p), a, b)
  {
    hide PageOf;
    PageAligned(address);
    OneGrowth(p, PageOf(address));
  }

  /** A fault on a page that is there. */
  lemma FaultServed(address: nat, isWrite: bool, r: int, p: Process, a: seq<Space>)
    requires p.userMode && p.mm >= 0 && p.mm < |a| && PageOf(address) in a[p.mm].pages && r <= 0
    requires (!isWrite ==> r == 0) && (isWrite && r == 0 ==> a[p.mm].pages[PageOf(address)].flags.writable)
    ensures FaultDone(address, isWrite, r, [], Some(p), a, a)
  {
  }

  lemma FaultIs(address: nat, isWrite: bool, r: int, log: seq<Step>, p: Option<Process>, a: seq<Space>, b: seq<Space>)
    requires FaultDone(address, isWrite, r, log, p, a, b)
    ensures r <= 0 && Faulted(log, p) && |log| <= 1 && SpaceOf(ProcAfter(p, log)) == SpaceOf(p)
    ensures log != [] ==>
      && 0 <= SpaceOf(p) < |a| && log == [Grow(SpaceOf(p), PageOf(address), UserData())]
      && PageOf(address) !in a[SpaceOf(p)].pages
  {
    if log != [] { assert log[..0] == []; }
  }

  lemma OneGrowth(p: Process, page: nat)
    ensures ProcAfter(Some(p), []) == Some(p)
    ensures p.mm >= 0 ==> ProcAfter(Some(p), [Grow(p.mm, page, UserData())]) == Some(StackGrown(p, page))
    ensures p.mm >= 0 && Demanded(p, page) ==> Faulted([Grow(p.mm, page, UserData())], Some(p))
  {
    if p.mm >= 0 {
      var log := [Grow(p.mm, page, UserData())];
      assert log[..0] == [];
    }
  }

  lemma NoFault(p: Option<Process>)
    ensures ProcAfter(p, []) == p && Faulted([], p)
  {
  }

  lemma {:induction false} FaultsJoin(p: Option<Process>, x: seq<Step>, y: seq<Step>)
    requires Faulted(x, p) && Faulted(y, ProcAfter(p, x))
    ensures Faulted(x + y, p) && ProcAfter(p, x + y) == ProcAfter(ProcAfter(p, x), y)
    decreases |y|
  {
    if y == [] {
      assert x + y == x;
    } else {
      var n := |y| - 1;
      FaultsJoin(p, x, y[..n]);
      assert (x + y)[..|x + y| - 1] == x + y[..n] && (x + y)[|x + y| - 1] == y[n];
    }
  }

  lemma StoreNoFault(p: Option<Process>, log: seq<Step>, e: Step)
    requires Faulted(log, p) && e.Store?
    ensures Faulted(log + [e], p) && ProcAfter(p, log + [e]) == ProcAfter(p, log)
  {
    assert (log + [e])[..|log|] == log;
  }

  /** Pages appear only for bytes of a range. */
  ghost predicate GrowsIn(log: seq<Step>, start: nat, size: nat) {
    forall e :: e in log ==> e.Grow? && Reaches(start, size, e.page)
  }

  /** Some byte of the range lies in the page. */
  ghost predicate Reaches(start: nat, size: nat, page: nat) {
    exists address: nat :: start <= address < start + size && PageOf(address) == page
  }

  lemma NoGrowth(start: nat, size: nat)
    ensures GrowsIn([], start, size)
  {
  }

  lemma GrowthJoin(log: seq<Step>, fault: seq<Step>, start: nat, size: nat, k: nat)
    requires GrowsIn(log, start, size) && |fault| <= 1 && k < size
    requires fault != [] ==> fault[0].Grow? && fault[0].page == PageOf(start + k)
    ensures GrowsIn(log + fault, start, size)
  {
    hide PageOf;
    if fault != [] { assert Reaches(start, size, PageOf(start + k)); }
  }

  lemma PageSeen(slots: seq<Slot>, p: Frames, others: multiset<nat>, mem: Memory, c: nat, k: nat)
    requires Inv(slots, p, others) && At(slots, c, k)
    ensures c < |Spaces(slots, mem)| && slots[c].mappings[k].virt in Spaces(slots, mem)[c].pages
    ensures Spaces(slots, mem)[c].pages[slots[c].mappings[k].virt].flags == Meant(slots[c].mappings[k])
    ensures Spaces(slots, mem)[c].pages[slots[c].mappings[k].virt].home.None? == slots[c].mappings[k].owned
  {
    hide AllFit, Counted, Sound;
    assert SlotOk(slots[c], |p.refs|);
    PagesAt(slots[c].mappings, mem);
  }

  /** The byte a space holds at an address. */
  ghost predicate Holds(a: seq<Space>, c: int, address: nat, b: bv8) {
    Readable(a, c, address) && a[c].pages[PageOf(address)].data[address % PAGE_SIZE] == b
  }

  /** The address lies in a page of the space that user code may see. */
  ghost predicate Readable(a: seq<Space>, c: int, address: nat) {
    0 <= c < |a| && PageOf(address) in a[c].pages && a[c].pages[PageOf(address)].flags.user
  }

  ghost predicate AllReadable(a: seq<Space>, c: int, start: nat, size: nat) {
    forall address: nat :: start <= address < start + size ==> Readable(a, c, address)
  }

  lemma HeldReadable(a: seq<Space>, c: int, start: nat, bytes: seq<bv8>)
    requires HoldsAll(a, c, start, bytes)
    ensures AllReadable(a, c, start, |bytes|)
  {
    forall address: nat | start <= address < start + |bytes| ensures Readable(a, c, address) {
      assert Holds(a, c, start + (address - start), bytes[address - start]);
    }
  }

  lemma LogStart(c: int, mm: int, start: nat)
    ensures c >= 0 ==> Contiguous([], c, mm, start)
  {
  }

  lemma LogNil(a: seq<Space>)
    ensures ApplyAll(a, []) == a && Landed(a, []) && Bytes([]) == []
  {
  }

  /** Logs of consecutive chunks join into one contiguous log. */
  lemma {:induction false} LogJoin(x: seq<Step>, y: seq<Step>, c: nat, mm: int, start: nat)
    requires Contiguous(x, c, mm, start) && Contiguous(y, c, mm, start + |Bytes(x)|)
    ensures Contiguous(x + y, c, mm, start) && Bytes(x + y) == Bytes(x) + Bytes(y)
  {
    hide Contiguous, Bytes, Appends;
    if y == [] {
      assert x + y == x;
      LogNil([]);
    } else {
      var n := |y| - 1;
      var e, z := y[n], y[..n];
      assert y == z + [e] && x + y == x + z + [e];
      LastStep(z, e, c, mm, start + |Bytes(x)|);
      LogJoin(x, z, c, mm, start);
      LastStep(x + z, e, c, mm, start);
    }
  }

  lemma FaultLog(a: seq<Space>, log: seq<Step>, c: nat, mm: int, address: nat)
    requires log == [] || (0 <= mm < |a| && log == [Grow(mm, PageOf(address),
                                                         UserData())] && PageOf(address) !in a[mm].pages)
    ensures Landed(a, log) && Contiguous(log, c, mm, address) && Bytes(log) == []
  {
    LogNil(a);
    if log != [] {
      assert log == [] + [log[0]];
      LastStep([], log[0], c, mm, address);
      LandedOne(a, [], log[0]);
    }
  }

  lemma StoreLog(a: seq<Space>, fault: seq<Step>, c: nat, mm: int, address: nat, bytes: seq<bv8>)
    requires Landed(a, fault) && Contiguous(fault, c, mm, address) && Bytes(fault) == []
    requires c < |a| && PageOf(address) in ApplyAll(a, fault)[c].pages && 0 < |bytes| <= PAGE_SIZE - address % PAGE_SIZE
    ensures var log := fault + [Store(c, address, bytes)];
      && Landed(a, log) && Contiguous(log, c, mm, address) && Bytes(log) == bytes
      && ApplyAll(a, log) == ApplyAll(ApplyAll(a, fault), [Store(c, address, bytes)])
  {
    hide Apply;
    var log := fault + [Store(c, address, bytes)];
    assert log[..|log| - 1] == fault;
    LandedOne(a, fault, Store(c, address, bytes));
    ApplyAllConcat(a, fault, [Store(c, address, bytes)]);
  }

  lemma GrowLog(a: seq<Space>, log: seq<Step>, fault: seq<Step>)
    requires Landed(a, log) && |fault| <= 1
    requires fault != [] ==> fault[0].Grow? && fault[0].c < |a| && fault[0].page !in ApplyAll(a, log)[fault[0].c].pages
    ensures Landed(a, log + fault) && ApplyAll(a, log + fault) == ApplyAll(ApplyAll(a, log), fault)
  {
    hide Apply;
    ApplyAllConcat(a, log, fault);
    if fault == [] {
      assert log + fault == log;
    } else {
      assert fault == [fault[0]];
      LandedOne(a, log, fault[0]);
    }
  }

  ghost predicate HoldsAll(a: seq<Space>, c: int, start: nat, bytes: seq<bv8>) {
    forall i :: 0 <= i < |bytes| ==> Holds(a, c, start + i, bytes[i])
  }

  lemma HoldsNil(a: seq<Space>, c: int, start: nat)
    ensures HoldsAll(a, c, start, [])
  {
  }

  lemma HoldsJoin(a: seq<Space>, c: int, start: nat, x: seq<bv8>, y: seq<bv8>)
    requires HoldsAll(a, c, start, x) && HoldsAll(a, c, start + |x|, y)
    ensures HoldsAll(a, c, start, x + y)
  {
    hide Holds;
    forall i | 0 <= i < |x + y| ensures Holds(a, c, start + i, (x + y)[i]) {
      if i >= |x| { assert Holds(a, c, start + |x| + (i - |x|), y[i - |x|]); }
    }
  }

  lemma StillHolds(a: seq<Space>, fault: seq<Step>, c: int, start: nat, bytes: seq<bv8>)
    requires HoldsAll(a, c, start, bytes) && |fault| <= 1
    requires fault != [] ==> fault[0].Grow? && fault[0].c < |a| && fault[0].page !in a[fault[0].c].pages
    ensures HoldsAll(ApplyAll(a, fault), c, start, bytes)
  {
    hide Holds, Apply;
    if fault != [] {
      assert fault == [] + [fault[0]];
      ApplyOne(a, [], fault[0]);
      forall i | 0 <= i < |bytes| ensures Holds(Apply(a, fault[0]), c, start + i, bytes[i]) {
        GrowHolds(a, fault[0], c, start + i, bytes[i]);
      }
    }
  }

  lemma GrowHolds(a: seq<Space>, grow: Step, c: int, address: nat, b: bv8)
    requires Holds(a, c, address, b)
    requires grow.Grow? && grow.c < |a| && grow.page !in a[grow.c].pages
    ensures Holds(Apply(a, grow), c, address, b)
  {
    hide PageOf;
  }

  lemma ReadBack(slots: seq<Slot>, p: Frames, others: multiset<nat>, mem: Memory, c: nat, k: nat, address: nat,
                 chunk: nat)
    requires Inv(slots, p, others) && At(slots, c, k) && slots[c].mappings[k].virt == PageOf(address)
    requires address % PAGE_SIZE + chunk <= PAGE_SIZE && slots[c].mappings[k].flags.user
    ensures HoldsAll(Spaces(slots, mem), c, address,
                     mem[slots[c].mappings[k].phys][address % PAGE_SIZE..address % PAGE_SIZE + chunk])
  {
    hide AllFit, Counted, Sound;
    assert SlotOk(slots[c], |p.refs|);
    PagesAt(slots[c].mappings, mem);
    var bytes := mem[slots[c].mappings[k].phys][address % PAGE_SIZE..address % PAGE_SIZE + chunk];
    forall i | 0 <= i < |bytes| ensures Holds(Spaces(slots, mem), c, address + i, bytes[i]) {
      PageArith(address, chunk, address + i);
    }
  }

  /** The flags of a page that appears on demand. */
  function UserData(): Flags { Flags(true, true, true, false, false, false) }

  /** The page is the next one of the stack or lies inside the heap. */
  predicate Demanded(p: Process, address: nat) {
    || (StackLimit(p) <= PageOf(address) && PageOf(address) + PAGE_SIZE == p.stackBottom)
    || (p.brkStart <= PageOf(address) && address < p.brkEnd)
  }

  lemma PageAligned(address: nat)
    ensures PageOf(address) % PAGE_SIZE == 0 && PageOf(PageOf(address)) == PageOf(address) <= address
  {
  }

  lemma Absent(slots: seq<Slot>, p: Frames, others: multiset<nat>, mem: Memory, c: nat, page: nat)
    requires Inv(slots, p, others) && c < |slots|
    requires forall i :: 0 <= i < |slots[c].mappings| ==> slots[c].mappings[i].virt != page
    ensures page !in Spaces(slots, mem)[c].pages
  {
    hide AllFit, Counted, Sound;
    PagesKeys(slots[c].mappings, mem);
  }

  /** The hardware table knows exactly the pages of the space. */
  lemma TableSeen(slots: seq<Slot>, p: Frames, others: multiset<nat>, mem: Memory, c: nat, virt: nat)
    requires Inv(slots, p, others) && c < |slots|
    ensures virt in slots[c].table <==> virt in Spaces(slots, mem)[c].pages
  {
    hide AllFit, Counted, Sound;
    assert SlotOk(slots[c], |p.refs|);
    PagesAt(slots[c].mappings, mem);
    VirtsAre(slots[c].mappings);
  }

  /** An unused context has no pages. */
  lemma Missing(slots: seq<Slot>, p: Frames, others: multiset<nat>, mem: Memory, c: nat, page: nat)
    requires Inv(slots, p, others) && c < |slots|
    requires !slots[c].used || forall i :: 0 <= i < |slots[c].mappings| ==> slots[c].mappings[i].virt != page
    ensures page !in Spaces(slots, mem)[c].pages
  {
    hide AllFit, Counted, Sound;
    assert SlotOk(slots[c], |p.refs|);
    Absent(slots, p, others, mem, c, page);
  }

  lemma HasMapping(slots: seq<Slot>, p: Frames, others: multiset<nat>, c: nat, virt: nat)
    requires Inv(slots, p, others) && c < |slots| && virt in slots[c].table
    ensures exists i :: 0 <= i < |slots[c].mappings| && slots[c].mappings[i].virt == virt
  {
    hide AllFit, Counted, Sound;
    assert SlotOk(slots[c], |p.refs|);
    VirtsAre(slots[c].mappings);
  }

  lemma BackedBy(slots: seq<Slot>, p: Frames, others: multiset<nat>, c: nat, k: nat)
    requires Inv(slots, p, others) && At(slots, c, k)
    ensures Backed(slots[c].mappings[k], slots[c].table)
  {
    hide AllFit, Counted, Sound;
    assert SlotOk(slots[c], |p.refs|);
  }

  lemma Dropped(slots: seq<Slot>, p: Frames, others: multiset<nat>, mem: Memory, c: nat, k: nat)
    requires Inv(slots, p, others) && At(slots, c, k)
    ensures var s := slots[c].(mappings := Without(slots[c].mappings, k),
                               table := slots[c].table - {slots[c].mappings[k].virt});
      && Inv(slots[c := s], if slots[c].mappings[k].owned then Released(p, slots[c].mappings[k].phys) else p, others)
      && Spaces(slots[c := s], mem) == ApplyAll(Spaces(slots, mem), [Drop(c, slots[c].mappings[k].virt)])
      && Landed(Spaces(slots, mem), [Drop(c, slots[c].mappings[k].virt)])
  {
    hide Inv, Released, Without, Spaces, ApplyAll, Landed;
    DroppedCounts(slots, p, others, c, k);
    DroppedView(slots, p, others, mem, c, k);
  }

  lemma DroppedCounts(slots: seq<Slot>, p: Frames, others: multiset<nat>, c: nat, k: nat)
    requires Inv(slots, p, others) && At(slots, c, k)
    ensures var s := slots[c].(mappings := Without(slots[c].mappings, k),
                               table := slots[c].table - {slots[c].mappings[k].virt});
      Inv(slots[c := s], if slots[c].mappings[k].owned then Released(p, slots[c].mappings[k].phys) else p, others)
  {
    assert |p.refs| == |p.used|;
    hide AllFit, Counted, Sound, Without;
    var ms, m := slots[c].mappings, slots[c].mappings[k];
    var s := slots[c].(mappings := Without(ms, k), table := slots[c].table - {m.virt});
    assert SlotOk(slots[c], |p.refs|);
    SlotRemove(slots[c], |p.refs|, k);
    WithoutAt(ms, k);
    var q := if m.owned then Released(p, m.phys) else p;
    if m.owned {
      OwnerFacts(slots, p, others, c, k);
      ReleasedFacts(p, m.phys);
    }
    forall f | 0 <= f < |p.refs|
      ensures q.refs[f] == p.refs[f] + Owned(s.mappings, f) - Owned(ms, f) && q.refs[f] <= p.refs[f]
    {
      OwnedRemove(ms, k, f);
    }
    Shrink(slots, p, others, c, s, q);
  }

  lemma DroppedView(slots: seq<Slot>, p: Frames, others: multiset<nat>, mem: Memory, c: nat, k: nat)
    requires Inv(slots, p, others) && At(slots, c, k)
    ensures var s := slots[c].(mappings := Without(slots[c].mappings, k),
                               table := slots[c].table - {slots[c].mappings[k].virt});
      && Spaces(slots[c := s], mem) == ApplyAll(Spaces(slots, mem), [Drop(c, slots[c].mappings[k].virt)])
      && Landed(Spaces(slots, mem), [Drop(c, slots[c].mappings[k].virt)])
  {
    hide AllFit, Counted, Sound, Without;
    var ms, m := slots[c].mappings, slots[c].mappings[k];
    var s := slots[c].(mappings := Without(ms, k), table := slots[c].table - {m.virt});
    assert SlotOk(slots[c], |p.refs|);
    DroppedPages(ms, k, mem);
    SpacesUpdate(slots, mem, c, s);
    ApplyOne(Spaces(slots, mem), [], Drop(c, m.virt));
    LandedOne(Spaces(slots, mem), [], Drop(c, m.virt));
  }

  lemma DroppedPages(ms: seq<Mapping>, k: nat, mem: Memory)
    requires Distinct(ms) && k < |ms|
    ensures Pages(Without(ms, k), mem) == Pages(ms, mem) - {ms[k].virt}
  {
    var n := |ms| - 1;
    var init := ms[..n];
    assert Pages(ms, mem) == Pages(init, mem)[ms[n].virt := ViewOf(ms[n], mem)];
    hide Pages, ViewOf;
    PagesKeys(init, mem);
    MapLaws(Pages(init, mem), ms[k].virt, ms[n].virt, ViewOf(ms[n], mem));
    if k < n {
      assert Without(ms, k) == init[k := ms[n]];
      PagesReplace(init, k, ms[n], mem);
    } else {
      assert Without(ms, k) == init;
    }
  }

  lemma MapLaws(m: map<nat, View>, a: nat, b: nat, x: View)
    ensures a != b ==> (m - {a})[b := x] == m[b := x] - {a}
    ensures b !in m ==> m[b := x] - {b} == m
    ensures b !in m ==> (m[b := x] - {b})[a := x] == m[a := x]
  {
  }

  lemma {:induction false} PagesKeys(ms: seq<Mapping>, mem: Memory)
    ensures forall v :: (forall i :: 0 <= i < |ms| ==> ms[i].virt != v) ==> v !in Pages(ms, mem)
  {
    if ms != [] {
      PagesKeys(ms[..|ms| - 1], mem);
      assert forall i :: 0 <= i < |ms| - 1 ==> ms[..|ms| - 1][i] == ms[i];
    }
  }

  lemma {:induction false} PagesReplace(ms: seq<Mapping>, k: nat, m: Mapping, mem: Memory)
    requires Distinct(ms) && k < |ms| && forall i :: 0 <= i < |ms| ==> ms[i].virt != m.virt
    ensures Pages(ms[k := m], mem) == (Pages(ms, mem) - {ms[k].virt})[m.virt := ViewOf(m, mem)]
  {
    var n := |ms| - 1;
    var init, x := ms[..n], ViewOf(m, mem);
    PagesKeys(init, mem);
    assert Pages(ms, mem) == Pages(init, mem)[ms[n].virt := ViewOf(ms[n], mem)];
    if k == n {
      assert ms[k := m][..n] == init;
      assert Pages(ms[k := m], mem) == Pages(init, mem)[m.virt := x];
      MapLaws(Pages(init, mem), m.virt, ms[n].virt, ViewOf(ms[n], mem));
    } else {
      assert ms[k := m][..n] == init[k := m];
      assert Pages(ms[k := m], mem) == Pages(init[k := m], mem)[ms[n].virt := ViewOf(ms[n], mem)];
      PagesReplace(init, k, m, mem);
      MapLaws(Pages(init, mem), ms[k].virt, ms[n].virt, ViewOf(ms[n], mem));
      hide Pages, ViewOf;
    }
  }

  lemma Stored(slots: seq<Slot>, p: Frames, others: multiset<nat>, mem: Memory, c: nat, k: nat, address: nat,
               bytes: seq<bv8>)
    requires Inv(slots, p, others) && At(slots, c, k) && slots[c].mappings[k].flags.writable
    requires slots[c].mappings[k].virt == PageOf(address) && address % PAGE_SIZE + |bytes| <= PAGE_SIZE
    ensures PageOf(address) in Spaces(slots, mem)[c].pages
    ensures Spaces(slots, mem[slots[c].mappings[k].phys := Splice(mem[slots[c].mappings[k].phys], address % PAGE_SIZE,
                                                                  bytes)])
         == ApplyAll(Spaces(slots, mem), [Store(c, address, bytes)])
    ensures Landed(Spaces(slots, mem), [Store(c, address, bytes)])
  {
    hide AllFit, Counted, Sound, EagerStore;
    var m := slots[c].mappings[k];
    assert SlotOk(slots[c], |p.refs|);
    PagesAt(slots[c].mappings, mem);
    StoreRefines(slots, p, others, mem, c, k, Splice(mem[m.phys], address % PAGE_SIZE, bytes));
    ApplyOne(Spaces(slots, mem), [], Store(c, address, bytes));
    LandedOne(Spaces(slots, mem), [], Store(c, address, bytes));
  }

  /** `m` is `n` with possibly fewer permissions recorded. */
  ghost predicate Looser(m: Mapping, n: Mapping, limit: nat) {
    && MappingOk(n, limit) && n == m.(flags := n.flags)
    && Within(m.flags, n.flags)
  }

  /** A fork in progress: the parent's first `j` mappings are protected, the
      child holds the first `i`, everybody else is untouched. */
  ghost predicate Mid(created: seq<Slot>, slots: seq<Slot>, source: nat, clone: nat, original: seq<Mapping>, i: nat,
                      j: nat)
  {
    && |slots| == |created| && source < |created| && clone < |created| && source != clone && i <= j <= |original|
    && created[source].mappings == original && created[clone].mappings == [] && created[clone].used
    && (forall d :: 0 <= d < |slots| && d != source && d != clone ==> slots[d] == created[d])
    && slots[source].used == created[source].used && slots[source].nextFree == created[source].nextFree
    && slots[clone].used && slots[clone].nextFree == created[clone].nextFree
    && slots[source].mappings == SharedUpTo(original, j)
    && slots[clone].mappings == SharedUpTo(original, j)[..i]
  }

  /** The hardware lets user code write a page. */
  ghost predicate UserOpen(slots: seq<Slot>, c: int, page: nat) {
    && 0 <= c < |slots| && slots[c].used && page in slots[c].table
    && slots[c].table[page].flags.user && slots[c].table[page].flags.writable
  }

  ghost predicate SameEntry(t: map<nat, Pte>, u: map<nat, Pte>, virt: nat) {
    virt in t && virt in u && t[virt] == u[virt]
  }

  /** Every hardware entry of a space is what its record says. */
  ghost predicate ExactSlot(s: Slot) {
    forall k :: 0 <= k < |s.mappings| ==>
      s.mappings[k].virt in s.table && s.table[s.mappings[k].virt] == Pte(s.mappings[k].phys, s.mappings[k].flags)
  }

  /** The hardware entries of a fork in progress: the child's are exact, and of the parent's only those of private pages
      among its first `j` have changed. */
  ghost predicate Wired(created: seq<Slot>, slots: seq<Slot>, source: nat, clone: nat, original: seq<Mapping>, j: nat) {
    && source < |slots| == |created| && clone < |slots| && ExactSlot(slots[clone])
    && forall k :: 0 <= k < |original| && (k >= j || !original[k].owned) ==>
      SameEntry(created[source].table, slots[source].table, original[k].virt)
  }

  lemma WiredBegin(created: seq<Slot>, p: Frames, others: multiset<nat>, source: nat, clone: nat,
                   original: seq<Mapping>)
    requires Inv(created, p, others) && source < |created| && clone < |created|
    requires created[source].mappings == original && created[clone].mappings == []
    ensures Wired(created, created, source, clone, original, 0)
  {
    hide AllFit, Counted, Sound;
    assert SlotOk(created[source], |p.refs|);
    forall k | 0 <= k < |original| ensures SameEntry(created[source].table, created[source].table, original[k].virt) {
      assert Backed(created[source].mappings[k], created[source].table);
    }
  }

  lemma WiredExact(created: seq<Slot>, slots: seq<Slot>, source: nat, clone: nat, original: seq<Mapping>, j: nat)
    requires Wired(created, slots, source, clone, original, j)
    ensures ExactSlot(slots[clone])
  {
  }

  /** A fork that stopped at its i-th page, before or after that was protected. */
  ghost predicate Halted(created: seq<Slot>, slots: seq<Slot>, source: nat, clone: nat, original: seq<Mapping>,
                         i: nat)
  {
    || (Mid(created, slots, source, clone, original, i, i) && Wired(created, slots, source, clone, original, i))
    || (Mid(created, slots, source, clone, original, i, i + 1) && Wired(created, slots, source, clone, original, i + 1))
  }

  /** One page of the parent protected. */
  lemma WiredHalf(created: seq<Slot>, before: seq<Slot>, slots: seq<Slot>, p: Frames, others: multiset<nat>,
                  source: nat, clone: nat, original: seq<Mapping>, i: nat, entry: Pte)
    requires Wired(created, before, source, clone, original, i) && Inv(created, p, others) && i < |original|
    requires |slots| == |before| && source != clone && slots[clone] == before[clone]
    requires created[source].mappings == original
    requires slots[source].table == before[source].table ||
      (original[i].owned && slots[source].table == before[source].table[original[i].virt := entry])
    ensures Wired(created, slots, source, clone, original, i + 1)
  {
    hide AllFit, Counted, Sound;
    assert SlotOk(created[source], |p.refs|);
    forall k | 0 <= k < |original| && (k >= i + 1 || !original[k].owned)
      ensures SameEntry(created[source].table, slots[source].table, original[k].virt)
    {
      assert SameEntry(created[source].table, before[source].table, original[k].virt);
      if k == i { assert !original[i].owned; }
    }
  }

  /** One page more for the child. */
  lemma WiredOnward(created: seq<Slot>, half: seq<Slot>, slots: seq<Slot>, source: nat, clone: nat,
                    original: seq<Mapping>, j: nat, m: Mapping)
    requires Wired(created, half, source, clone, original, j) && source != clone
    requires slots == half[clone := Extended(half[clone], m)]
    requires forall i :: 0 <= i < |half[clone].mappings| ==> half[clone].mappings[i].virt != m.virt
    ensures Wired(created, slots, source, clone, original, j)
  {
    var s, t := half[clone], slots[clone];
    forall k | 0 <= k < |t.mappings|
      ensures t.mappings[k].virt in t.table
      ensures t.table[t.mappings[k].virt] == Pte(t.mappings[k].phys, t.mappings[k].flags)
    {
      if k < |s.mappings| { assert t.mappings[k] == s.mappings[k]; }
    }
  }

  /** A space whose pages are another one's, shared, with exact hardware entries. */
  ghost predicate CopiedSlot(original: seq<Mapping>, s: Slot) {
    ExactSlot(s) && s.mappings == SharedUpTo(original, |original|)
  }

  /** A fork leaves the entries of shared memory alone. */
  ghost predicate ForeignKept(original: seq<Mapping>, t: map<nat, Pte>, u: map<nat, Pte>) {
    forall k :: 0 <= k < |original| && !original[k].owned ==> SameEntry(t, u, original[k].virt)
  }

  lemma WiredForeign(created: seq<Slot>, slots: seq<Slot>, source: nat, clone: nat, original: seq<Mapping>, j: nat)
    requires Wired(created, slots, source, clone, original, j)
    ensures ForeignKept(original, created[source].table, slots[source].table)
  {
  }

  /** Memory from outside that a space has under a page, for user code to write. */
  ghost predicate OpenForeign(a: seq<Space>, c: int, page: nat) {
    && 0 <= c < |a| && page in a[c].pages && a[c].pages[page].home.Some?
    && a[c].pages[page].flags.user && a[c].pages[page].flags.writable
  }

  /** Of a fork's pages user code may write exactly those of shared memory at once. */
  lemma CopyOpens(slots: seq<Slot>, p: Frames, others: multiset<nat>, mem: Memory, clone: nat, original: seq<Mapping>,
                  page: nat)
    requires Inv(slots, p, others) && clone < |slots| && slots[clone].used && CopiedSlot(original, slots[clone])
    ensures UserOpen(slots, clone, page) <==> OpenForeign(Spaces(slots, mem), clone, page)
  {
    hide Inv, Spaces;
    if page in slots[clone].table {
      HasMapping(slots, p, others, clone, page);
      var k :| 0 <= k < |slots[clone].mappings| && slots[clone].mappings[k].virt == page;
      PageSeen(slots, p, others, mem, clone, k);
    } else {
      TableSeen(slots, p, others, mem, clone, page);
    }
  }

  /** The parent of a fork may write the shared memory it could write. */
  lemma ForeignOpen(a: seq<Slot>, pa: Frames, b: seq<Slot>, p: Frames, others: multiset<nat>, mem: Memory, source: nat,
                    page: nat)
    requires Inv(a, pa, others) && Inv(b, p, others) && source < |a| == |b|
    requires ForeignKept(a[source].mappings, a[source].table, b[source].table)
    requires UserOpen(a, source, page) && OpenForeign(Spaces(a, mem), source, page)
    ensures UserOpen(b, source, page)
  {
    hide Spaces, Counted, AllFit, Sound;
    HasMapping(a, pa, others, source, page);
    var k :| 0 <= k < |a[source].mappings| && a[source].mappings[k].virt == page;
    PageSeen(a, pa, others, mem, source, k);
    assert SameEntry(a[source].table, b[source].table, page);
    assert SlotOk(b[source], |p.refs|);
  }

  lemma MidOthers(created: seq<Slot>, slots: seq<Slot>, source: nat, clone: nat, original: seq<Mapping>)
    requires Mid(created, slots, source, clone, original, |original|, |original|)
    ensures |slots| == |created| && forall d :: 0 <= d < |slots| && d != source && d != clone ==> slots[d] == created[d]
  {
  }

  lemma MidCopied(created: seq<Slot>, slots: seq<Slot>, source: nat, clone: nat, original: seq<Mapping>)
    requires Mid(created, slots, source, clone, original, |original|, |original|) && ExactSlot(slots[clone])
    ensures CopiedSlot(original, slots[clone].(nextFree := slots[source].nextFree))
  {
    var s := SharedUpTo(original, |original|);
    assert s[..|original|] == s;
  }

  /** After so many pages of a parent were restored: their entries are what their old records say, unless nothing had
      been taken from them; the other entries are as they were. */
  ghost predicate Rewired(s: Slot, original: seq<Mapping>, table: map<nat, Pte>, n: nat) {
    |s.mappings| == |original| && forall k :: 0 <= k < |original| ==> RewiredAt(s, original, table, n, k)
  }

  ghost predicate RewiredAt(s: Slot, original: seq<Mapping>, table: map<nat, Pte>, n: nat, k: nat)
    requires k < |original| == |s.mappings|
  {
    if k < n && s.mappings[k].flags != original[k].flags
    then original[k].virt in table && table[original[k].virt] == Pte(original[k].phys, original[k].flags)
    else SameEntry(s.table, table, original[k].virt)
  }

  lemma RewiredBegin(s: Slot, limit: nat, original: seq<Mapping>)
    requires SlotOk(s, limit) && |s.mappings| == |original|
    requires forall k :: 0 <= k < |original| ==> Looser(s.mappings[k], original[k], limit)
    ensures Rewired(s, original, s.table, 0)
  {
    forall k | 0 <= k < |original| ensures RewiredAt(s, original, s.table, 0, k) {
      assert Looser(s.mappings[k], original[k], limit) && Backed(s.mappings[k], s.table);
    }
  }

  lemma RewiredNext(s: Slot, limit: nat, original: seq<Mapping>, table: map<nat, Pte>, k: nat)
    requires SlotOk(s, limit) && |s.mappings| == |original| && k < |original|
    requires forall j :: 0 <= j < |original| ==> Looser(s.mappings[j], original[j], limit)
    ensures Rewired(s, original, table, k) && s.mappings[k].flags == original[k].flags ==>
      Rewired(s, original, table, k + 1)
    ensures Rewired(s, original, table, k) && s.mappings[k].flags != original[k].flags ==>
      Rewired(s, original, table[original[k].virt := Pte(original[k].phys, original[k].flags)], k + 1)
  {
    if Rewired(s, original, table, k) {
      var m := k + 1;
      var now := if s.mappings[k].flags == original[k].flags then table
                 else table[original[k].virt := Pte(original[k].phys, original[k].flags)];
      forall j | 0 <= j < |original| ensures RewiredAt(s, original, now, m, j) {
        assert RewiredAt(s, original, table, k, j);
        assert Looser(s.mappings[j], original[j], limit) && Looser(s.mappings[k], original[k], limit);
      }
    }
  }

  /** What the hardware let user code write before a fork it lets it write after the fork was undone. */
  lemma Reopened(start: seq<Slot>, created: seq<Slot>, entry: seq<Slot>, slots: seq<Slot>, p: Frames,
                 others: multiset<nat>, source: nat, clone: nat, original: seq<Mapping>, i: nat, j: nat, page: nat)
    requires Inv(start, p, others) && clone < |start| && source != clone
    requires created == start[clone := Slot(true, [], map[], DYNAMIC_BASE)]
    requires Mid(created, entry, source, clone, original, i, j) && Wired(created, entry, source, clone, original, j)
    requires |slots| == |start| && slots[source].used == start[source].used
    requires Rewired(entry[source], original, slots[source].table, |original|)
    ensures UserOpen(start, source, page) ==> UserOpen(slots, source, page)
  {
    hide AllFit, Counted, Sound;
    if UserOpen(start, source, page) {
      assert SlotOk(start[source], |p.refs|);
      VirtsAre(original);
      var k :| 0 <= k < |original| && original[k].virt == page;
      assert Backed(original[k], start[source].table);
      assert RewiredAt(entry[source], original, slots[source].table, |original|, k);
      if entry[source].mappings[k].flags == original[k].flags {
        assert k >= j || !original[k].owned;
        assert SameEntry(created[source].table, entry[source].table, page);
      }
    }
  }

  /** No hardware entry but that of one page of one space has changed. */
  ghost predicate OnlyEntryOf(a: seq<Slot>, b: seq<Slot>, c: int, page: nat) {
    |a| == |b| && forall d, q :: 0 <= d < |a| && (d != c || q != page) ==> SameHardware(a[d].table, b[d].table, q)
  }

  /** A page that user code may write stays one. */
  ghost predicate KeepsOpen(a: seq<Slot>, b: seq<Slot>) {
    forall c, page :: UserOpen(a, c, page) ==> UserOpen(b, c, page)
  }

  lemma SameOpen(slots: seq<Slot>, c: int, page: nat)
    ensures KeepsOpen(slots, slots) && OnlyEntryOf(slots, slots, c, page)
  {
  }

  lemma OtherOpen(a: seq<Slot>, b: seq<Slot>, p: Frames, others: multiset<nat>, c: int, page: nat, d: int, q: nat)
    requires Inv(b, p, others) && OnlyEntryOf(a, b, c, page) && UserOpen(a, d, q) && (d != c || q != page)
    ensures UserOpen(b, d, q)
  {
    hide Counted, AllFit, Sound;
    assert SameHardware(a[d].table, b[d].table, q);
    assert SlotOk(b[d], |p.refs|);
  }

  lemma StillOpen(a: seq<Slot>, b: seq<Slot>, p: Frames, others: multiset<nat>, c: int, page: nat)
    requires Inv(b, p, others) && OnlyEntryOf(a, b, c, page)
    requires UserOpen(a, c, page) ==> UserOpen(b, c, page)
    ensures KeepsOpen(a, b)
  {
    hide Inv;
    forall d, q | UserOpen(a, d, q) ensures UserOpen(b, d, q) {
      if d != c || q != page { OtherOpen(a, b, p, others, c, page, d, q); }
    }
  }

  /** What one operation keeps open and the next one too. */
  lemma OpenThen(a: seq<Slot>, b: seq<Slot>, c: seq<Slot>)
    requires KeepsOpen(a, b) && KeepsOpen(b, c)
    ensures KeepsOpen(a, c)
  {
  }

  /** A page put where there was none closes nothing. */
  lemma PlacedOpen(a: seq<Slot>, pa: Frames, b: seq<Slot>, p: Frames, others: multiset<nat>, c: int, page: nat)
    requires Inv(a, pa, others) && Inv(b, p, others) && OnlyEntryOf(a, b, c, page)
    requires 0 <= c < |a| && a[c].used ==> forall i :: 0 <= i < |a[c].mappings| ==> a[c].mappings[i].virt != page
    ensures KeepsOpen(a, b)
  {
    hide Inv;
    if UserOpen(a, c, page) {
      HasMapping(a, pa, others, c, page);
      assert false;
    }
    StillOpen(a, b, p, others, c, page);
  }

  /** The hardware entry agrees with the space on who may use the page, and grants no more. */
  lemma EntrySeen(slots: seq<Slot>, p: Frames, others: multiset<nat>, mem: Memory, c: nat, page: nat)
    requires Inv(slots, p, others) && c < |slots| && page in slots[c].table
    ensures c < |Spaces(slots, mem)| && page in Spaces(slots, mem)[c].pages
    ensures var f := Spaces(slots, mem)[c].pages[page].flags;
      slots[c].table[page].flags.user == f.user && (slots[c].table[page].flags.writable ==> f.writable)
  {
    hide Inv, Spaces;
    HasMapping(slots, p, others, c, page);
    var k :| 0 <= k < |slots[c].mappings| && slots[c].mappings[k].virt == page;
    BackedBy(slots, p, others, c, k);
    PageSeen(slots, p, others, mem, c, k);
  }

  /** A page that has been split is open to user code if it was. */
  lemma SplitOpen(a: seq<Slot>, pa: Frames, am: Memory, b: seq<Slot>, p: Frames, bm: Memory, others: multiset<nat>,
                  c: int, page: nat)
    requires Inv(a, pa, others) && Inv(b, p, others) && OnlyEntryOf(a, b, c, page)
    requires Spaces(a, am) == Spaces(b, bm)
    requires 0 <= c < |b| && b[c].used && page in b[c].table && b[c].table[page].flags.writable
    ensures KeepsOpen(a, b)
  {
    hide Inv, Spaces;
    if UserOpen(a, c, page) {
      EntrySeen(a, pa, others, am, c, page);
      EntrySeen(b, p, others, bm, c, page);
    }
    StillOpen(a, b, p, others, c, page);
  }

  ghost predicate SameHardware(t: map<nat, Pte>, u: map<nat, Pte>, virt: nat) {
    (virt in t <==> virt in u) && (virt in t ==> t[virt] == u[virt])
  }

  lemma NothingThere(limit: nat)
    ensures SlotOk(EmptySlot, limit)
  {
  }

  lemma Begin(created: seq<Slot>, p: Frames, others: multiset<nat>, source: nat, clone: nat, original: seq<Mapping>)
    requires Inv(created, p, others) && source < |created| && clone < |created| && source != clone
    requires created[source].mappings == original && created[clone].mappings == [] && created[clone].used
    ensures Mid(created, created, source, clone, original, 0, 0)
    ensures forall k :: 0 <= k < |original| ==> original[k].flags.present
  {
    hide AllFit, Counted, Sound;
    assert SlotOk(created[source], |p.refs|);
    assert SharedUpTo(original, 0) == original;
  }

  lemma StillLooser(start: seq<Slot>, p: Frames, others: multiset<nat>, source: nat, original: seq<Mapping>, j: nat)
    requires Inv(start, p, others) && source < |start| && start[source].mappings == original && j <= |original|
    ensures forall k :: 0 <= k < |original| ==> Looser(SharedUpTo(original, j)[k], original[k], |p.refs|)
  {
    hide AllFit, Counted, Sound;
    assert SlotOk(start[source], |p.refs|);
    forall k | 0 <= k < |original| ensures Looser(SharedUpTo(original, j)[k], original[k], |p.refs|) {
      assert MappingOk(original[k], |p.refs|);
    }
  }

  lemma Protected(slots: seq<Slot>, p: Frames, others: multiset<nat>, c: nat, k: nat, fl: Flags)
    requires Inv(slots, p, others) && At(slots, c, k) && Shared(slots[c].mappings[k]).flags == fl.(present := true)
    requires slots[c].mappings[k].owned && fl == slots[c].mappings[k].flags.(writable := false, cow := true)
    ensures slots[c].mappings[k].flags.present
    ensures var m := slots[c].mappings[k];
      Inv(slots[c := slots[c].(mappings := slots[c].mappings[k := Shared(m)],
        table := slots[c].table[m.virt := Pte(m.phys, fl)])], p, others)
  {
    hide AllFit, Counted, Sound;
    var m := slots[c].mappings[k];
    assert SlotOk(slots[c], |p.refs|) && MappingOk(m, |p.refs|);
    SlotRewrite(slots[c], |p.refs|, k, Shared(m), fl);
    Reflag(slots, p, others, c, k, Shared(m),
           slots[c].(mappings := slots[c].mappings[k := Shared(m)], table := slots[c].table[m.virt := Pte(m.phys,
                                                                                                          fl)]));
  }

  lemma MidSource(slots: seq<Slot>, source: nat, clone: nat, original: seq<Mapping>)
    requires Mid(slots, slots, source, clone, original, 0, 0)
    ensures source < |slots| && slots[source].mappings == original
  {
  }

  lemma Halfway(created: seq<Slot>, before: seq<Slot>, slots: seq<Slot>, source: nat, clone: nat,
                original: seq<Mapping>, i: nat)
    requires Mid(created, before, source, clone, original, i, i) && i < |original|
    requires |slots| == |before| && forall d :: 0 <= d < |slots| && d != source ==> slots[d] == before[d]
    requires slots[source].used == before[source].used && slots[source].nextFree == before[source].nextFree
    requires slots[source].mappings == before[source].mappings[i := Shared(before[source].mappings[i])]
    ensures Mid(created, slots, source, clone, original, i, i + 1)
  {
    assert SharedUpTo(original, i)[..i] == SharedUpTo(original, i + 1)[..i];
    assert slots[source].mappings == SharedUpTo(original, i + 1);
  }

  lemma ChildRoom(slots: seq<Slot>, p: Frames, others: multiset<nat>, source: nat, clone: nat, original: seq<Mapping>,
                  i: nat)
    requires Inv(slots, p, others) && i < |original| && source < |slots| && clone < |slots|
    requires slots[source].mappings == SharedUpTo(original, i + 1)
    requires slots[clone].mappings == SharedUpTo(original, i + 1)[..i]
    ensures MappingOk(slots[source].mappings[i], |p.refs|)
    ensures slots[source].mappings[i].owned ==> !slots[source].mappings[i].flags.writable
    ensures forall j :: 0 <= j < |slots[clone].mappings| ==>
      slots[clone].mappings[j].virt != slots[source].mappings[i].virt
    ensures |slots[clone].mappings| < MAX_MAPPINGS
    ensures Saturates(p, [slots[source].mappings[i]]) ==> Saturates(p, [original[i]])
  {
    hide AllFit, Counted, Sound;
    assert SlotOk(slots[source], |p.refs|);
    assert slots[source].mappings[i] == Shared(original[i]);
    SharedCounts(p, original[i]);
  }

  lemma SharedCounts(p: Frames, m: Mapping)
    ensures Saturates(p, [Shared(m)]) ==> Saturates(p, [m])
  {
    hide Owned;
    if Saturates(p, [Shared(m)]) {
      var f :| 0 <= f < |p.refs| && p.refs[f] + Owned([Shared(m)], f) > REF_SATURATED;
      OwnedAppend([], m, f);
      OwnedAppend([], Shared(m), f);
      assert [] + [m] == [m] && [] + [Shared(m)] == [Shared(m)];
    }
  }

  lemma Onward(created: seq<Slot>, half: seq<Slot>, slots: seq<Slot>, source: nat, clone: nat, original: seq<Mapping>,
               i: nat)
    requires Mid(created, half, source, clone, original, i, i + 1) && i < |original|
    requires slots == half[clone := Extended(half[clone], half[source].mappings[i])]
    ensures Mid(created, slots, source, clone, original, i + 1, i + 1)
  {
    assert SharedUpTo(original, i + 1)[..i] + [SharedUpTo(original, i + 1)[i]] == SharedUpTo(original, i + 1)[..i + 1];
  }

  /** A mapping whose frame cannot be counted once more. */
  lemma CountAt(slots: seq<Slot>, p: Frames, others: multiset<nat>, c: nat, i: nat)
    requires Inv(slots, p, others) && At(slots, c, i) && slots[c].mappings[i].owned
    requires MappingOk(slots[c].mappings[i], |p.refs|)
    ensures var m := slots[c].mappings[i];
            && 0 < FrameOf(m) < |p.refs|
            && (p.refs[FrameOf(m)] == 0 || p.refs[FrameOf(m)] >= REF_SATURATED ==> Saturates(p, [m]))
  {
    hide AllFit, Sound, Spaces;
    var m := slots[c].mappings[i];
    OwnerFacts(slots, p, others, c, i);
    assert Owned([m], FrameOf(m)) == 1 by { OwnedAppend([], m, FrameOf(m)); assert [] + [m] == [m]; }
  }

  /** If a page cannot be counted after those before it were, there are too many references in all. */
  lemma SaturatesAll(slots: seq<Slot>, p: Frames, others: multiset<nat>, source: nat, original: seq<Mapping>, done: nat)
    requires Inv(slots, p, others) && source < |slots| && slots[source].mappings == original && done < |original|
    requires Saturates(RetainedAll(p, original[..done]), [original[done]])
    ensures Saturates(p, original)
  {
    hide AllFit, Sound, Counted, RetainedAll, Owned;
    assert SlotOk(slots[source], |p.refs|);
    RetainedAllFacts(p, original[..done]);
    var f :| 0 <= f < |p.refs| && RetainedAll(p, original[..done]).refs[f] + Owned([original[done]], f) > REF_SATURATED;
    OwnedAppend([], original[done], f);
    OwnedAppend(original[..done], original[done], f);
    OwnedPrefix(original, done + 1, f);
    assert [] + [original[done]] == [original[done]] && original[..done] + [original[done]] == original[..done + 1];
    assert Owned([], f) == 0 by { NoneOwned(f); }
  }

  lemma NoneOwned(f: nat)
    ensures Owned([], f) == 0
  {
  }

  lemma Returned(p: Frames, m: Mapping)
    requires Sound(p) && m.owned && m.phys % PAGE_SIZE == 0 && 0 < FrameOf(m) < |p.refs| && p.refs[FrameOf(m)] > 0
    ensures Released(Retained(p, m), m.phys) == p
  {
    hide CountClear;
    assert p.refs[FrameOf(m) := p.refs[FrameOf(m)] + 1][FrameOf(m) := p.refs[FrameOf(m)]] == p.refs;
  }

  lemma Joined(slots: seq<Slot>, p: Frames, others: multiset<nat>, source: nat, i: nat, clone: nat)
    requires Inv(slots, p, others) && At(slots, source, i) && clone < |slots| && slots[clone].used
    requires |slots[clone].mappings| < MAX_MAPPINGS
    requires slots[source].mappings[i].owned ==> !slots[source].mappings[i].flags.writable
    requires MappingOk(slots[source].mappings[i], |p.refs|) && Sound(Retained(p, slots[source].mappings[i]))
    requires forall j :: 0 <= j < |slots[clone].mappings| ==>
      slots[clone].mappings[j].virt != slots[source].mappings[i].virt
    ensures Inv(slots[clone := Extended(slots[clone], slots[source].mappings[i])],
                Retained(p, slots[source].mappings[i]), others)
  {
    hide AllFit, Counted, Sound;
    var m := slots[source].mappings[i];
    assert SlotOk(slots[clone], |p.refs|);
    SlotAppend(slots[clone], |p.refs|, m, m.flags);
    Join(slots, p, others, source, i, clone, Extended(slots[clone], m));
  }

  /** A finished fork: the child has the pages the parent had before. */
  lemma Forked(start: seq<Slot>, created: seq<Slot>, mid: seq<Slot>, p: Frames, others: multiset<nat>, mem: Memory,
               source: nat, clone: nat, original: seq<Mapping>)
    requires Inv(mid, p, others) && Mid(created, mid, source, clone, original, |original|, |original|)
    requires created[source].used
    requires forall k :: 0 <= k < |original| ==> original[k].flags.present
    requires Spaces(created, mem) == ApplyAll(Spaces(start, mem), [New(clone)])
    requires Landed(Spaces(start, mem), [New(clone)])
    requires |start| == |created|
    ensures Landed(Spaces(start, mem), [New(clone), Fork(source, clone)])
    ensures clone < |mid| && source < |mid| && mid[clone].used
    ensures Inv(mid[clone := mid[clone].(nextFree := mid[source].nextFree)], p, others)
    ensures Spaces(mid[clone := mid[clone].(nextFree := mid[source].nextFree)], mem)
         == ApplyAll(Spaces(start, mem), [New(clone), Fork(source, clone)])
  {
    hide AllFit, Counted, Sound, Pages, Meant;
    var t := mid[clone].(nextFree := mid[source].nextFree);
    assert SlotOk(mid[clone], |p.refs|);
    SameMappings(mid, mid[clone := t], p, others);
    SharedPages(original, mem);
    assert SharedUpTo(original, |original|)[..|original|] == SharedUpTo(original, |original|);
    SpacesUpdate(mid, mem, clone, t);
    var a := Spaces(created, mem);
    forall d | 0 <= d < |mid| && d != clone ensures Spaces(mid, mem)[d] == a[d] {}
    assert Spaces(mid[clone := t], mem) == Apply(a, Fork(source, clone));
    assert [New(clone), Fork(source, clone)] == [New(clone)] + [Fork(source, clone)];
    ApplyOne(Spaces(start, mem), [New(clone)], Fork(source, clone));
    NoPages(created[clone].mappings, mem);
    LandedOne(Spaces(start, mem), [New(clone)], Fork(source, clone));
  }

  lemma NoPages(ms: seq<Mapping>, mem: Memory)
    requires ms == []
    ensures Pages(ms, mem) == map[]
  {
  }

  /** Protecting a page takes nothing away from what it means. */
  lemma SharedPages(ms: seq<Mapping>, mem: Memory)
    requires forall i :: 0 <= i < |ms| ==> ms[i].flags.present
    ensures Pages(SharedUpTo(ms, |ms|), mem) == Pages(ms, mem)
  {
    hide Pages;
    PagesCongruent(SharedUpTo(ms, |ms|), ms, mem, mem);
  }

  lemma {:induction false} OwnedPrefix(ms: seq<Mapping>, i: nat, f: nat)
    requires i <= |ms|
    ensures Owned(ms[..i], f) <= Owned(ms, f)
  {
    if i == |ms| {
      assert ms[..i] == ms;
    } else {
      assert ms[..|ms| - 1][..i] == ms[..i];
      OwnedPrefix(ms[..|ms| - 1], i, f);
    }
  }

  lemma UndoCounts(start: seq<Slot>, p: Frames, others: multiset<nat>, source: nat, i: nat, ns: seq<Mapping>)
    requires Inv(start, p, others) && source < |start| && i <= |start[source].mappings| && |ns| == i
    requires Sound(RetainedAll(p, start[source].mappings[..i]))
    requires forall k :: 0 <= k < i ==> ns[k] == Shared(start[source].mappings[k])
    ensures Covers(RetainedAll(p, start[source].mappings[..i]), ns)
    ensures ReleasedAll(RetainedAll(p, start[source].mappings[..i]), ns) == p
  {
    hide AllFit, Sound, RetainedAll, ReleasedAll, Owned;
    var ms := start[source].mappings;
    assert SlotOk(start[source], |p.refs|);
    forall f | 0 <= f < |p.refs| ensures p.refs[f] >= Owned(ms[..i], f) {
      AllOwnedIncludes(start, source, source, f);
      OwnedPrefix(ms, i, f);
    }
    assert forall k :: 0 <= k < i ==> ms[..i][k] == ms[k] && MappingOk(ms[k], |p.refs|);
    assert Covers(p, ms[..i]);
    RetainRelease(p, ms[..i], ns);
  }

  lemma Restored(start: seq<Slot>, created: seq<Slot>, entry: seq<Slot>, slots: seq<Slot>, p: Frames,
                 others: multiset<nat>, mem: Memory,
                 source: nat, clone: nat, original: seq<Mapping>, i: nat, j: nat)
    requires Inv(start, p, others) && clone < |start| && !start[clone].used
    requires created == start[clone := Slot(true, [], map[], DYNAMIC_BASE)]
    requires Mid(created, entry, source, clone, original, i, j) && SlotsOk(slots, |p.refs|)
    requires slots ==
      entry[source := entry[source].(mappings := original, table := slots[source].table)][clone := EmptySlot]
    ensures Inv(slots, p, others) && Spaces(slots, mem) == Spaces(start, mem)
    ensures forall c :: 0 <= c < |slots| ==> slots[c].mappings == start[c].mappings
    ensures |slots| == |start| && forall c :: 0 <= c < |slots| ==> slots[c].used == start[c].used
  {
    hide AllFit, Counted, Sound, Pages;
    assert SlotOk(start[clone], |p.refs|);
    forall c | 0 <= c < |slots|
      ensures slots[c].mappings == start[c].mappings && slots[c].used == start[c].used
      ensures slots[c].nextFree == start[c].nextFree
    {
    }
    SameMappings(start, slots, p, others);
  }

  lemma OwnerFacts(slots: seq<Slot>, p: Frames, others: multiset<nat>, c: nat, k: nat)
    requires Inv(slots, p, others) && At(slots, c, k) && slots[c].mappings[k].owned
    ensures slots[c].mappings[k].phys % PAGE_SIZE == 0 && 0 < FrameOf(slots[c].mappings[k]) < |p.refs|
    ensures p.refs[FrameOf(slots[c].mappings[k])] >= 1
  {
    hide AllFit;
    OneOwner(slots, c, k);
    assert SlotOk(slots[c], |p.refs|) && MappingOk(slots[c].mappings[k], |p.refs|);
  }

  lemma Reclaimed(slots: seq<Slot>, p: Frames, others: multiset<nat>, mem: Memory, c: nat, k: nat)
    requires Inv(slots, p, others) && At(slots, c, k) && slots[c].mappings[k].owned && slots[c].mappings[k].flags.cow
    requires FrameOf(slots[c].mappings[k]) < |p.refs| && p.refs[FrameOf(slots[c].mappings[k])] == 1
    ensures Inv(slots[c := Opened1(slots[c], k, slots[c].mappings[k].phys)], p, others)
    ensures Spaces(slots[c := Opened1(slots[c], k, slots[c].mappings[k].phys)], mem) == Spaces(slots, mem)
  {
    hide AllFit, Counted, Sound;
    var m := slots[c].mappings[k];
    var n := m.(flags := m.flags.(writable := true, cow := false, present := true));
    var s := Opened1(slots[c], k, m.phys);
    assert SlotOk(slots[c], |p.refs|) && MappingOk(m, |p.refs|);
    SlotRewrite(slots[c], |p.refs|, k, n, n.flags);
    Reflag(slots, p, others, c, k, n, s);
    SpacesUpdate(slots, mem, c, s);
    PagesCongruent(slots[c].mappings, s.mappings, mem, mem);
  }

  /** The slot after its k-th mapping was made writable, at frame `phys`. */
  function Opened1(s: Slot, k: nat, phys: nat): Slot
    requires k < |s.mappings|
  {
    var f := s.mappings[k].flags.(writable := true, cow := false);
    s.(mappings := s.mappings[k := s.mappings[k].(phys := phys, flags := f.(present := true))],
       table := s.table[s.mappings[k].virt := Pte(phys, f)])
  }

  lemma Moved(slots: seq<Slot>, p: Frames, others: multiset<nat>, mem: Memory, c: nat, k: nat, phys: nat)
    requires Inv(slots, p, others) && At(slots, c, k) && slots[c].mappings[k].owned && slots[c].mappings[k].flags.cow
    requires FrameOf(slots[c].mappings[k]) < |p.refs| && p.refs[FrameOf(slots[c].mappings[k])] > 1
    requires phys % PAGE_SIZE == 0 && 0 < phys / PAGE_SIZE < |p.used| && !p.used[phys / PAGE_SIZE] && p.free > 0
    requires Sound(Taken(p, phys / PAGE_SIZE))
    ensures Inv(slots[c := Opened1(slots[c], k, phys)], Released(Taken(p, phys / PAGE_SIZE), slots[c].mappings[k].phys),
                others)
    ensures Spaces(slots[c := Opened1(slots[c], k, phys)], mem[phys := mem[slots[c].mappings[k].phys]]) == Spaces(slots,
                                                                                                                  mem)
  {
    hide AllFit, Counted, Taken, Released, Pages, Spaces;
    var m := slots[c].mappings[k];
    var n := m.(phys := phys, flags := m.flags.(writable := true, cow := false, present := true));
    var s := Opened1(slots[c], k, phys);
    assert SlotOk(slots[c], |p.refs|) && MappingOk(m, |p.refs|);
    SlotRewrite(slots[c], |p.refs|, k, n, n.flags);
    Replace(slots, p, others, c, k, n, s);
    Unseen(slots, p, others, mem, phys, mem[m.phys]);
    SpacesUpdate(slots, mem[phys := mem[m.phys]], c, s);
    PagesAt(slots[c].mappings, mem);
    MovedPages(slots, p, others, mem, c, k, phys, n);
  }

  lemma MovedPages(slots: seq<Slot>, p: Frames, others: multiset<nat>, mem: Memory, c: nat, k: nat, phys: nat,
                   n: Mapping)
    requires Inv(slots, p, others) && At(slots, c, k) && slots[c].mappings[k].owned && n.owned && n.phys == phys
    requires phys / PAGE_SIZE < |p.refs| && p.refs[phys / PAGE_SIZE] == 0
    requires n.virt == slots[c].mappings[k].virt && Meant(n) == Meant(slots[c].mappings[k])
    ensures Pages(slots[c].mappings[k := n], mem[phys := mem[slots[c].mappings[k].phys]]) == Pages(slots[c].mappings,
                                                                                                   mem)
  {
    hide Pages, AllFit, Counted, Sound, SlotOk;
    var ms := slots[c].mappings;
    forall i | 0 <= i < |ms| ensures ms[i].phys != phys { NotFreeFrame(slots, p, others, c, i, phys / PAGE_SIZE); }
    PagesCongruent(ms[k := n], ms, mem[phys := mem[ms[k].phys]], mem);
  }

  function Extended(s: Slot, m: Mapping): Slot {
    s.(mappings := s.mappings + [m], table := s.table[m.virt := Pte(m.phys, m.flags)])
  }

  lemma Bound(slots: seq<Slot>, p: Frames, others: multiset<nat>, mem: Memory, c: nat, m: Mapping)
    requires Inv(slots, p, others) && c < |slots| && slots[c].used && |slots[c].mappings| < MAX_MAPPINGS
    requires MappingOk(m, |p.refs|) && !m.owned && Fits(m, p, others)
    requires forall i :: 0 <= i < |slots[c].mappings| ==> slots[c].mappings[i].virt != m.virt
    ensures Inv(slots[c := Extended(slots[c], m)], p, others)
    ensures Spaces(slots[c := Extended(slots[c], m)], mem) == ApplyAll(Spaces(slots, mem),
                                                                       [Bind(c, m.virt, m.phys, m.flags, mem[m.phys])])
    ensures Landed(Spaces(slots, mem), [Bind(c, m.virt, m.phys, m.flags, mem[m.phys])])
  {
    hide AllFit, Counted, SlotOk, Sound;
    SlotAppend(slots[c], |p.refs|, m, m.flags);
    AppendForeign(slots, p, others, c, m, Extended(slots[c], m));
    SpacesUpdate(slots, mem, c, Extended(slots[c], m));
    PagesAppend(slots[c].mappings, m, mem);
    ApplyOne(Spaces(slots, mem), [], Bind(c, m.virt, m.phys, m.flags, mem[m.phys]));
    PagesKeys(slots[c].mappings, mem);
    LandedOne(Spaces(slots, mem), [], Bind(c, m.virt, m.phys, m.flags, mem[m.phys]));
  }

  /** Giving back the frame just taken restores the allocator. */
  lemma Undone(p: Frames, physical: nat)
    requires Sound(p) && physical % PAGE_SIZE == 0 && 0 < physical / PAGE_SIZE < |p.used| && p.free > 0
    requires !p.used[physical / PAGE_SIZE]
    ensures Released(Taken(p, physical / PAGE_SIZE), physical) == p
  {
    hide CountClear;
    var frame := physical / PAGE_SIZE;
    assert p.refs[frame] == 0;
    assert p.used[frame := true][frame := false] == p.used && p.refs[frame := 1][frame := 0] == p.refs;
  }

  lemma Grown(slots: seq<Slot>, p: Frames, others: multiset<nat>, mem: Memory, c: nat, m: Mapping)
    requires Inv(slots, p, others) && c < |slots| && slots[c].used && |slots[c].mappings| < MAX_MAPPINGS
    requires MappingOk(m, |p.refs|) && m.owned && FrameOf(m) < |p.used| && !p.used[FrameOf(m)] && p.free > 0
    requires Sound(Taken(p, FrameOf(m)))
    requires forall i :: 0 <= i < |slots[c].mappings| ==> slots[c].mappings[i].virt != m.virt
    requires mem[m.phys] == ZeroPage()
    ensures Inv(slots[c := Extended(slots[c], m)], Taken(p, FrameOf(m)), others)
    ensures Spaces(slots[c := Extended(slots[c], m)], mem) == ApplyAll(Spaces(slots, mem), [Grow(c, m.virt, Meant(m))])
    ensures Landed(Spaces(slots, mem), [Grow(c, m.virt, Meant(m))])
  {
    hide AllFit, Counted, SlotOk, Sound;
    SlotAppend(slots[c], |p.refs|, m, m.flags);
    Append(slots, p, others, c, m, Extended(slots[c], m));
    SpacesUpdate(slots, mem, c, Extended(slots[c], m));
    PagesAppend(slots[c].mappings, m, mem);
    ApplyOne(Spaces(slots, mem), [], Grow(c, m.virt, Meant(m)));
    PagesKeys(slots[c].mappings, mem);
    LandedOne(Spaces(slots, mem), [], Grow(c, m.virt, Meant(m)));
  }

  lemma OwnerCovers(slots: seq<Slot>, p: Frames, others: multiset<nat>, c: nat)
    requires Inv(slots, p, others) && c < |slots|
    ensures Covers(p, slots[c].mappings)
  {
    forall f | 0 <= f < |p.refs| ensures p.refs[f] >= Owned(slots[c].mappings, f) { AllOwnedIncludes(slots, c, c, f); }
  }

  lemma Opened(slots: seq<Slot>, p: Frames, others: multiset<nat>, mem: Memory, c: nat)
    requires Inv(slots, p, others) && c < |slots| && !slots[c].used
    ensures Inv(slots[c := Slot(true, [], map[], DYNAMIC_BASE)], p, others)
    ensures Spaces(slots[c := Slot(true, [], map[], DYNAMIC_BASE)], mem) == ApplyAll(Spaces(slots, mem), [New(c)])
    ensures Landed(Spaces(slots, mem), [New(c)])
  {
    hide AllFit, Counted;
    var s := Slot(true, [], map[], DYNAMIC_BASE);
    SameMappings(slots, slots[c := s], p, others);
    SpacesUpdate(slots, mem, c, s);
    ApplyOne(Spaces(slots, mem), [], New(c));
    LandedOne(Spaces(slots, mem), [], New(c));
  }

  lemma Vanish(slots: seq<Slot>, p: Frames, others: multiset<nat>, mem: Memory, c: nat)
    requires Inv(slots, p, others) && c < |slots|
    ensures Inv(slots[c := EmptySlot], ReleasedAll(p, slots[c].mappings), others)
    ensures Spaces(slots[c := EmptySlot], mem) == ApplyAll(Spaces(slots, mem), [Discard(c)])
    ensures Landed(Spaces(slots, mem), [Discard(c)])
  {
    hide AllFit, Counted, Spaces, ApplyAll, Landed;
    OwnerCovers(slots, p, others, c);
    ReleasedAllFacts(p, slots[c].mappings);
    Shrink(slots, p, others, c, EmptySlot, ReleasedAll(p, slots[c].mappings));
    VanishSeen(slots, mem, c);
  }

  lemma VanishSeen(slots: seq<Slot>, mem: Memory, c: nat)
    requires c < |slots|
    ensures Spaces(slots[c := EmptySlot], mem) == ApplyAll(Spaces(slots, mem), [Discard(c)])
    ensures Landed(Spaces(slots, mem), [Discard(c)])
  {
    SpacesUpdate(slots, mem, c, EmptySlot);
    ApplyOne(Spaces(slots, mem), [], Discard(c));
    LandedOne(Spaces(slots, mem), [], Discard(c));
  }
}
