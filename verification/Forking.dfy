/** Whole runs over the address spaces: processes fault, store, fork and exit, the
    kernel copies to and from them, and memory runs out at any point. Every run is
    a run of spaces in which a fork had copied all private pages. */
module Forking {
  import opened Pmm
  import opened Cow
  import opened Vmm

  /** What processes and the kernel ask of the address spaces. */
  datatype Op =
    | Schedule(p: Option<Process>)
    | Create
    | Clone(source: int)
    | Fault(address: nat, isWrite: bool)
    | Write(c: int, address: nat, value: bv8)
    | CopyTo(c: int, address: nat, data: seq<bv8>)
    | CopyFrom(c: int, address: nat, size: nat)
    | Allocate(c: int, virt: nat, flags: Flags)
    | Attach(c: int, virt: nat, phys: nat, flags: Flags)
    | Release(c: int, virt: nat)
    | Switch(cpu: nat, c: int)
    | Kill(c: int)

  datatype Reply = Reply(result: int, bytes: seq<bv8>)

  /** The kernel's own side of it, which decides what can fail: its tables, the frames, the memory, and how many
      requests the page-table code got and how it answers. */
  datatype Inner = Inner(slots: seq<Slot>, frames: Frames, mem: Memory, calls: nat, answers: nat -> int)

  /** What the spaces hold, who runs, and which spaces are loaded. */
  datatype Machine = Machine(spaces: seq<Space>, proc: Option<Process>, current: seq<int>, inner: Inner)

  ghost function Now(m: AddressSpaces): Machine
    requires m.pmm.Valid()
    reads m, m.pmm, m.pmm.bitmap, m.pmm.refs
  {
    Machine(m.Seen(), m.proc, m.current, Inner(m.slots, m.pmm.View(), m.mem, m.archCalls, m.archResult))
  }

  ghost predicate Lives(a: seq<Space>, c: int) { 0 <= c < |a| && a[c].used }

  // ----- one operation -----

  /** Only a switch and the faults of the running process change the process. */
  ghost function Runs(op: Op, log: seq<Step>, p: Option<Process>): Option<Process> {
    if op.Schedule? then op.p else if op.Fault? || op.CopyTo? || op.CopyFrom? then ProcAfter(p, log) else p
  }

  /** Only a switch changes which space a CPU has loaded, and to one that exists. */
  ghost function Loads(op: Op, a: Machine): seq<int> {
    if op.Switch? && op.cpu < |a.current| && (op.c < 0 || Lives(a.spaces, op.c))
    then a.current[op.cpu := if op.c < 0 then KERNEL else op.c] else a.current
  }

  /** The page-table code failed a request of the operation. */
  ghost predicate Failed(a: Machine, b: Machine) { Refused(a.inner.answers, a.inner.calls, b.inner.calls) }

  ghost predicate Crowded(a: Machine, c: int) {
    0 <= c < |a.inner.slots| && |a.inner.slots[c].mappings| >= MAX_MAPPINGS
  }

  /** Exactly what an operation did: the steps it took and what it answered. */
  ghost predicate Did(op: Op, reply: Reply, log: seq<Step>, a: Machine, b: Machine) {
    && b == Machine(ApplyAll(a.spaces, log), Runs(op, log, a.proc), Loads(op, a), b.inner)
    && b.inner.answers == a.inner.answers
    && Landed(a.spaces, log) && (!op.CopyFrom? ==> reply.bytes == []) && StaysOpen(op, a, b)
    && match op
       case Schedule(p) => log == [] && reply.result == 0
       case Switch(cpu, c) => log == [] && reply.result == 0
       case Create => CreateDone(reply.result, log, a, b)
       case Clone(source) =>
         && CloneDone(source, reply.result, log, a, b)
         && CloneOpens(source, reply.result, a, b)
       case Fault(address, isWrite) =>
         && FaultDone(address, isWrite, reply.result, log, a.proc, a.spaces, b.spaces)
         && FaultWhy(address, isWrite, reply.result, a, b)
       case Write(c, address, value) => WriteDone(op, reply.result, log, a)
       case CopyTo(c, address, data) => CopyToDone(op, reply.result, log, a, b)
       case CopyFrom(c, address, size) => CopyFromDone(op, reply, log, a, b)
       case Allocate(c, virt, flags) => AllocateDone(op, reply.result, log, a, b)
       case Attach(c, virt, phys, flags) => AttachDone(op, reply.result, log, a, b)
       case Release(c, virt) => ReleaseDone(op, reply.result, log, a, b)
       case Kill(c) => reply.result == 0 && log == if Lives(a.spaces, c) && c !in a.current then [Discard(c)] else []
  }

  /** The operations after which user code may no longer be let write a page it could write: the page or its space goes,
      or the space is forked. */
  ghost predicate Closes(op: Op, c: int, page: nat) {
    || (op.Release? && op.c == c && op.virt == page)
    || (op.Kill? && op.c == c)
    || (op.Clone? && op.source == c)
  }

  ghost predicate StaysOpen(op: Op, a: Machine, b: Machine) {
    forall c, page :: Opens(a, c, page) && !Closes(op, c, page) ==> Opens(b, c, page)
  }

  ghost predicate AllUsed(a: seq<Space>) { forall c :: 0 <= c < |a| ==> a[c].used }

  /** A new empty space where there was none, or nothing. */
  ghost predicate CreateDone(r: int, log: seq<Step>, a: Machine, b: Machine) {
    if r < 0 then log == [] && (Failed(a, b) || AllUsed(a.spaces))
    else r < |a.spaces| && !a.spaces[r].used && log == [New(r)]
  }

  /** A copy of the source in a new space, or nothing. */
  ghost predicate CloneDone(source: int, r: int, log: seq<Step>, a: Machine, b: Machine) {
    if r < 0 then
      log == [] && (Failed(a, b) || AllUsed(a.spaces)
                    || (0 <= source < |a.inner.slots| && Saturates(a.inner.frames, a.inner.slots[source].mappings)))
    else
      && r < |a.spaces| && !a.spaces[r].used
      && log == if Lives(a.spaces, source) then [New(r), Fork(source, r)] else [New(r)]
  }

  /** What user code may write at once after a fork: in the child exactly the shared memory, in the parent the shared
      memory it could write; after a fork that failed and was undone, all it could write. */
  ghost predicate CloneOpens(source: int, r: int, a: Machine, b: Machine) {
    if r < 0 then Failed(a, b) || KeepsOpen(a.inner.slots, b.inner.slots)
    else Lives(a.spaces, source) ==> forall page ::
      && (Opens(b, r, page) <==> OpenForeign(b.spaces, r, page))
      && (Opens(a, source, page) && OpenForeign(a.spaces, source, page) ==> Opens(b, source, page))
  }

  /** The hardware entry lets user code write the page. */
  ghost predicate Opens(a: Machine, c: int, page: nat) { UserOpen(a.inner.slots, c, page) }

  /** A byte stored by user code: exactly if the hardware entry lets it, and then the page is one it may write. */
  ghost predicate WriteDone(op: Op, r: int, log: seq<Step>, a: Machine)
    requires op.Write?
  {
    if r < 0 then log == [] && !Opens(a, op.c, PageOf(op.address))
    else
      && r == 0 && Opens(a, op.c, PageOf(op.address))
      && op.c < |a.spaces| && PageOf(op.address) in a.spaces[op.c].pages
      && a.spaces[op.c].pages[PageOf(op.address)].flags.user && a.spaces[op.c].pages[PageOf(op.address)].flags.writable
      && log == [Store(op.c, op.address, [op.value])]
  }

  /** A prefix of the data is stored from the address on, all of it exactly on success;
      pages appear only where the next byte goes and the running process may have them. */
  ghost predicate CopyToDone(op: Op, r: int, log: seq<Step>, a: Machine, b: Machine)
    requires op.CopyTo?
  {
    && r <= 0 && Bytes(log) <= op.data && Faulted(log, a.proc)
    && (r == 0 <==> Bytes(log) == op.data && op.c >= 0 && (op.data == [] || ValidUserRange(op.address, |op.data|)))
    && (log != [] ==> op.c >= 0 && Contiguous(log, op.c, SpaceOf(a.proc), op.address))
    && (op.c < 0 || (op.data != [] && !ValidUserRange(op.address, |op.data|)) ==> r == EFAULT && log == [])
    && (r < 0 && op.c >= 0 && (op.data == [] || ValidUserRange(op.address, |op.data|)) ==>
          || StoreHindered(b.spaces, b.proc, b.inner.slots, op.c, op.address + |Bytes(log)|)
          || b.inner.frames.free == 0 || Failed(a, b))
  }

  /** The bytes the space holds, exactly if all of them can be seen; pages appear only in
      the range and where the running process may have them. */
  ghost predicate CopyFromDone(op: Op, reply: Reply, log: seq<Step>, a: Machine, b: Machine)
    requires op.CopyFrom?
  {
    && reply.result <= 0 && Faulted(log, a.proc) && GrowsIn(log, op.address, op.size)
    && (if reply.result == 0 then |reply.bytes| == op.size && HoldsAll(b.spaces, op.c, op.address,
                                                                       reply.bytes) else reply.bytes == [])
    && (reply.result == 0 <==>
          && op.c >= 0 && (op.size == 0 || ValidUserRange(op.address, op.size))
          && AllReadable(b.spaces, op.c, op.address, op.size))
    && (op.c < 0 || (op.size > 0 && !ValidUserRange(op.address, op.size)) ==> reply.result == EFAULT && log == [])
    && (reply.result < 0 && op.c >= 0 && (op.size == 0 || ValidUserRange(op.address, op.size)) ==>
          || SomeHindered(b.spaces, b.proc, b.inner.slots, op.c, op.address, op.size)
          || b.inner.frames.free == 0 || Failed(a, b))
  }

  /** A zeroed page where there was none; refused only for what rules it out. */
  ghost predicate AllocateDone(op: Op, r: int, log: seq<Step>, a: Machine, b: Machine)
    requires op.Allocate?
  {
    && OnlyEntryOf(a.inner.slots, b.inner.slots, op.c, op.virt)
    && if r < 0 then
      log == [] && (Closed(a, op.c, op.virt) || a.inner.frames.free == 0 || Failed(a, b))
    else
      && (Opens(b, op.c, op.virt) <==> op.flags.user && op.flags.writable)
      && r == 0 && Lives(a.spaces, op.c) && op.virt % PAGE_SIZE == 0
      && log == [Grow(op.c, op.virt, Meant(Mapping(op.virt, 0, op.flags.(present := true), true)))]
  }

  /** Why a fault is refused, and what a fault that is served opens: a page that was missing or had to be split can be
      written by user code afterwards, exactly if it is a user page, and need not be split again. No other
      hardware entry changes. */
  ghost predicate FaultWhy(address: nat, isWrite: bool, r: int, a: Machine, b: Machine) {
    && FaultReason(address, isWrite, r, a.proc, a.spaces, a.inner.slots, a.inner.frames.free, Failed(a, b))
    && OnlyEntryOf(a.inner.slots, b.inner.slots, SpaceOf(a.proc), PageOf(address))
    && (r == 0 && FaultOpens(address, isWrite, a.proc, a.spaces, a.inner.slots) ==>
          var mm, page := a.proc.value.mm, PageOf(address);
          0 <= mm < |b.spaces| && page in b.spaces[mm].pages && !CowPage(b.inner.slots, mm, page)
          && (Opens(b, mm, page) <==> b.spaces[mm].pages[page].flags.user))
  }

  /** No page can be put there. */
  ghost predicate Closed(a: Machine, c: int, virt: nat) {
    || !Lives(a.spaces, c) || virt == 0 || virt % PAGE_SIZE != 0 || virt in a.spaces[c].pages || Crowded(a, c)
  }

  /** Memory outside the managed frames, seen at a page where there was none. */
  ghost predicate AttachDone(op: Op, r: int, log: seq<Step>, a: Machine, b: Machine)
    requires op.Attach?
  {
    && OnlyEntryOf(a.inner.slots, b.inner.slots, op.c, op.virt)
    && if r < 0 then
      log == [] && (Closed(a, op.c, op.virt) || Failed(a, b))
    else
      && (Opens(b, op.c, op.virt) <==> op.flags.user && op.flags.writable)
      && r == 0 && Lives(a.spaces, op.c) && op.virt % PAGE_SIZE == 0
      && log == [Bind(op.c, op.virt, op.phys, op.flags.(present := true), a.inner.mem[op.phys])]
  }

  /** A page that is there goes; for one that is not, the answer is 0 or -ENOENT and nothing changes. */
  ghost predicate ReleaseDone(op: Op, r: int, log: seq<Step>, a: Machine, b: Machine)
    requires op.Release?
  {
    OnlyEntryOf(a.inner.slots, b.inner.slots, op.c, op.virt) &&
    if op.virt == 0 || op.virt % PAGE_SIZE != 0 || !Lives(a.spaces, op.c) then r == EINVAL && log == []
    else if op.virt in a.spaces[op.c].pages then r == 0 && log == [Drop(op.c, op.virt)]
    else r in {0, ENOENT} && log == []
  }

  /** What callers owe: a CPU that exists, and frames given from outside that the frame allocator does not manage. */
  predicate Sensible(op: Op, cpus: nat, limit: nat) {
    && (op.Switch? ==> op.cpu < cpus)
    && (op.Attach? ==> op.phys % PAGE_SIZE == 0 && op.phys > 0 && op.phys / PAGE_SIZE >= limit)
  }

  lemma Living(m: AddressSpaces, c: int)
    ensures m.InUse(c) <==> Lives(m.Seen(), c)
    ensures |m.Seen()| == |m.slots|
  {
  }

  method DoCreate(m: AddressSpaces) returns (r: int, ghost log: seq<Step>)
    requires m.Valid()
    modifies m
    ensures m.Valid() && Did(Create, Reply(r, []), log, old(Now(m)), Now(m))
  {
    hide Inv, Spaces, Apply, ApplyAll, Landed;
    Living(m, 0);
    ghost var slots := m.slots;
    ghost var spaces := m.Seen();
    forall c ensures m.InUse(c) <==> Lives(spaces, c) { Living(m, c); }
    r, log := m.CreateContext();
  }

  /** A fork: what it did is all there is to it. */
  lemma CloneIs(source: int, r: int, log: seq<Step>, a: Machine, b: Machine)
    requires CloneDone(source, r, log, a, b) && CloneOpens(source, r, a, b) && StaysOpen(Clone(source), a, b)
    requires b.spaces == ApplyAll(a.spaces, log) && b.proc == a.proc && b.current == a.current
    requires b.inner.answers == a.inner.answers && Landed(a.spaces, log)
    ensures Did(Clone(source), Reply(r, []), log, a, b)
  {
    hide ApplyAll, Landed, CloneDone, CloneOpens, StaysOpen;
  }

  method DoClone(m: AddressSpaces, source: int) returns (r: int, ghost log: seq<Step>)
    requires m.Valid()
    modifies m, m.pmm`freePages, m.pmm`searchStart, m.pmm.bitmap, m.pmm.refs
    ensures m.Valid() && Did(Clone(source), Reply(r, []), log, old(Now(m)), Now(m))
  {
    hide Inv, Spaces, Apply, ApplyAll, Landed, Did, OpenForeign, CopiedSlot, ForeignKept, Refused, Saturates;
    hide UserOpen, KeepsOpen;
    Living(m, 0);
    ghost var a := Now(m);
    forall c ensures m.InUse(c) <==> Lives(a.spaces, c) { Living(m, c); }
    r, log := m.CloneContext(source);
    ghost var b := Now(m);
    if r >= 0 && Lives(a.spaces, source) {
      ClonedOpen(m, source, r, a);
    }
    assert StaysOpen(Clone(source), a, b) by {
      forall c, page | Opens(a, c, page) && c != source ensures Opens(b, c, page) {
        SlotOpen(a.inner.slots, b.inner.slots, c, page);
      }
    }
    CloneIs(source, r, log, a, b);
  }

  lemma SlotOpen(a: seq<Slot>, b: seq<Slot>, c: int, page: nat)
    requires UserOpen(a, c, page) && |a| == |b| && (0 <= c < |a| && a[c].used ==> b[c] == a[c])
    ensures UserOpen(b, c, page)
  {
  }

  lemma ClonedOpen(m: AddressSpaces, source: nat, r: nat, a: Machine)
    requires m.Valid() && m.InUse(r) && source < |a.inner.slots| == |m.slots|
    requires Inv(a.inner.slots, a.inner.frames, m.others) && a.spaces == Spaces(a.inner.slots, a.inner.mem)
    requires CopiedSlot(a.inner.slots[source].mappings, m.slots[r])
    requires ForeignKept(a.inner.slots[source].mappings, a.inner.slots[source].table, m.slots[source].table)
    ensures CloneOpens(source, r, a, Now(m))
  {
    hide Inv, Spaces, UserOpen, OpenForeign, CopiedSlot, ForeignKept;
    forall page ensures Opens(Now(m), r, page) <==> OpenForeign(Now(m).spaces, r, page) {
      CopyOpens(m.slots, m.pmm.View(), m.others, m.mem, r, a.inner.slots[source].mappings, page);
    }
    forall page | Opens(a, source, page) && OpenForeign(a.spaces, source, page) ensures Opens(Now(m), source, page) {
      ForeignOpen(a.inner.slots, a.inner.frames, m.slots, m.pmm.View(), m.others, a.inner.mem, source, page);
    }
  }

  /** User code stores a byte, if the hardware lets it. */
  method DoWrite(m: AddressSpaces, c: int, address: nat, value: bv8) returns (r: int, ghost log: seq<Step>)
    requires m.Valid()
    modifies m
    ensures m.Valid() && Did(Write(c, address, value), Reply(r, []), log, old(Now(m)), Now(m))
  {
    hide Inv, Spaces, Apply, ApplyAll, Landed, PageOf;
    Living(m, c);
    LogNil(m.Seen());
    if !m.InUse(c) { return EFAULT, []; }
    var ok;
    ok, log := m.UserStore(c, address, value);
    r := if ok then 0 else EFAULT;
  }

  /** A CPU loads a space. */
  method DoSwitch(m: AddressSpaces, cpu: nat, c: int) returns (r: int, ghost log: seq<Step>)
    requires m.Valid() && cpu < |m.current|
    modifies m
    ensures m.Valid() && Did(Switch(cpu, c), Reply(r, []), log, old(Now(m)), Now(m))
  {
    hide Inv, Spaces, Apply, ApplyAll, Landed;
    Living(m, c);
    LogNil(m.Seen());
    r, log := 0, [];
    m.SwitchContext(cpu, c);
  }

  /** An operation on one page: what it did is all there is to it. */
  lemma PageDone(op: Op, r: int, log: seq<Step>, a: Machine, b: Machine)
    requires (op.Allocate? && AllocateDone(op, r, log, a, b)) || (op.Attach? && AttachDone(op, r, log, a, b))
    requires b.spaces == ApplyAll(a.spaces, log) && b.proc == a.proc && b.current == a.current
    requires b.inner.answers == a.inner.answers && Landed(a.spaces, log) && KeepsOpen(a.inner.slots, b.inner.slots)
    ensures Did(op, Reply(r, []), log, a, b)
  {
    hide ApplyAll, Landed, AllocateDone, AttachDone;
  }

  /** Device memory at a page where there was nothing. */
  method DoAttach(m: AddressSpaces, c: int, virt: nat, phys: nat, flags: Flags) returns (r: int, ghost log: seq<Step>)
    requires m.Valid() && Sensible(Attach(c, virt, phys, flags), |m.current|, m.pmm.limit)
    modifies m
    ensures m.Valid() && Did(Attach(c, virt, phys, flags), Reply(r, []), log, old(Now(m)), Now(m))
  {
    hide Inv, Spaces, Apply, ApplyAll, Landed, PageOf, Refused, Saturates, Did, KeepsOpen;
    SameOpen(m.slots, c, virt);
    ghost var a := Now(m);
    Living(m, c);
    var k := m.FindMapping(c, virt);
    LogNil(m.Seen());
    if virt % PAGE_SIZE == 0 { AlignedPage(virt); }
    if k >= 0 { PageSeen(m.slots, m.pmm.View(), m.others, m.mem, c, k); }
    if virt % PAGE_SIZE != 0 || k >= 0 {
      PageDone(Attach(c, virt, phys, flags), EINVAL, [], a, a);
      return EINVAL, [];
    }
    r, log := m.MapForeign(c, virt, phys, flags);
    PlacedOpen(a.inner.slots, a.inner.frames, m.slots, m.pmm.View(), m.others, c, virt);
    PageDone(Attach(c, virt, phys, flags), r, log, a, Now(m));
  }

  method DoRelease(m: AddressSpaces, c: int, virt: nat) returns (r: int, ghost log: seq<Step>)
    requires m.Valid()
    modifies m, m.pmm`freePages, m.pmm`searchStart, m.pmm.bitmap, m.pmm.refs
    ensures m.Valid() && Did(Release(c, virt), Reply(r, []), log, old(Now(m)), Now(m))
  {
    hide Inv, Spaces, Apply, ApplyAll, Landed;
    Living(m, c);
    LogNil(m.Seen());
    if !m.InUse(c) { return EINVAL, []; }
    ghost var a := Now(m);
    r, log := m.Unmap(c, virt);
    forall d, q | UserOpen(a.inner.slots, d, q) && (d != c || q != virt) ensures UserOpen(m.slots, d, q) {
      OtherOpen(a.inner.slots, m.slots, m.pmm.View(), m.others, c, virt, d, q);
    }
  }

  method DoKill(m: AddressSpaces, c: int) returns (r: int, ghost log: seq<Step>)
    requires m.Valid()
    modifies m, m.pmm`freePages, m.pmm`searchStart, m.pmm.bitmap, m.pmm.refs
    ensures m.Valid() && Did(Kill(c), Reply(r, []), log, old(Now(m)), Now(m))
  {
    hide Inv, Spaces, Apply, ApplyAll, Landed;
    Living(m, c);
    r := 0;
    log := m.Destroy(c);
  }

  /** A zeroed page where there was none. */
  method DoAllocate(m: AddressSpaces, c: int, virt: nat, flags: Flags) returns (r: int, ghost log: seq<Step>)
    requires m.Valid()
    modifies m, m.pmm`freePages, m.pmm`searchStart, m.pmm.bitmap, m.pmm.refs
    ensures m.Valid() && Did(Allocate(c, virt, flags), Reply(r, []), log, old(Now(m)), Now(m))
  {
    hide Inv, Spaces, Apply, ApplyAll, Landed, PageOf, Meant, Refused, Saturates, Did, KeepsOpen;
    SameOpen(m.slots, c, virt);
    ghost var a := Now(m);
    Living(m, c);
    var k := m.FindMapping(c, virt);
    LogNil(m.Seen());
    if virt % PAGE_SIZE == 0 { AlignedPage(virt); }
    if k >= 0 { PageSeen(m.slots, m.pmm.View(), m.others, m.mem, c, k); }
    if virt % PAGE_SIZE != 0 || k >= 0 {
      PageDone(Allocate(c, virt, flags), EINVAL, [], a, a);
      return EINVAL, [];
    }
    r, log := m.MapAllocated(c, virt, flags);
    PlacedOpen(a.inner.slots, a.inner.frames, m.slots, m.pmm.View(), m.others, c, virt);
    PageDone(Allocate(c, virt, flags), r, log, a, Now(m));
  }

  method DoFault(m: AddressSpaces, address: nat, isWrite: bool) returns (r: int, ghost log: seq<Step>)
    requires m.Valid()
    modifies m, m.pmm`freePages, m.pmm`searchStart, m.pmm.bitmap, m.pmm.refs
    ensures m.Valid() && Did(Fault(address, isWrite), Reply(r, []), log, old(Now(m)), Now(m))
  {
    hide Inv, Spaces, Apply, ApplyAll, Landed, PageOf, FaultDone, ProcAfter;
    ghost var a := Now(m);
    r, log := m.HandleFault(address, isWrite);
    if r == 0 && FaultOpens(address, isWrite, a.proc, a.spaces, a.inner.slots) {
      EntrySeen(m.slots, m.pmm.View(), m.others, m.mem, a.proc.value.mm, PageOf(address));
    }
  }

  method DoCopyTo(m: AddressSpaces, c: int, address: nat, data: seq<bv8>) returns (r: int, ghost log: seq<Step>)
    requires m.Valid()
    modifies m, m.pmm`freePages, m.pmm`searchStart, m.pmm.bitmap, m.pmm.refs
    ensures m.Valid() && Did(CopyTo(c, address, data), Reply(r, []), log, old(Now(m)), Now(m))
  {
    hide Inv, Spaces, Apply, ApplyAll, Landed, Contiguous, Bytes, ProcAfter, Faulted, ValidUserRange;
    r, log := m.CopyToUser(c, address, data);
  }

  method DoCopyFrom(m: AddressSpaces, c: int, address: nat, size: nat)
    returns (r: int, out: seq<bv8>, ghost log: seq<Step>)
    requires m.Valid()
    modifies m, m.pmm`freePages, m.pmm`searchStart, m.pmm.bitmap, m.pmm.refs
    ensures m.Valid() && Did(CopyFrom(c, address, size), Reply(r, out), log, old(Now(m)), Now(m))
  {
    hide Inv, Spaces, Apply, ApplyAll, Landed, ProcAfter, Faulted, GrowsIn, HoldsAll, AllReadable, ValidUserRange;
    r, out, log := m.CopyFromUser(c, address, size);
  }

  /** Another process runs. */
  method DoSchedule(m: AddressSpaces, p: Option<Process>) returns (ghost log: seq<Step>)
    requires m.Valid()
    modifies m
    ensures m.Valid() && Did(Schedule(p), Reply(0, []), log, old(Now(m)), Now(m))
  {
    hide Inv, Spaces, Apply, ApplyAll, Landed;
    LogNil(m.Seen());
    m.proc := p;
    log := [];
  }

  method Do(m: AddressSpaces, op: Op) returns (reply: Reply, ghost log: seq<Step>)
    requires m.Valid() && Sensible(op, |m.current|, m.pmm.limit)
    modifies m, m.pmm`freePages, m.pmm`searchStart, m.pmm.bitmap, m.pmm.refs
    ensures m.Valid() && |Now(m).current| == |old(Now(m)).current| && Did(op, reply, log, old(Now(m)), Now(m))
  {
    hide Did, Inv, Now;
    var r, out := 0, [];
    match op {
      case Schedule(p) => log := DoSchedule(m, p);
      case Create => r, log := DoCreate(m);
      case Clone(source) => r, log := DoClone(m, source);
      case Fault(address, isWrite) => r, log := DoFault(m, address, isWrite);
      case Write(c, address, value) => r, log := DoWrite(m, c, address, value);
      case CopyTo(c, address, data) => r, log := DoCopyTo(m, c, address, data);
      case CopyFrom(c, address, size) => r, out, log := DoCopyFrom(m, c, address, size);
      case Allocate(c, virt, flags) => r, log := DoAllocate(m, c, virt, flags);
      case Attach(c, virt, phys, flags) => r, log := DoAttach(m, c, virt, phys, flags);
      case Release(c, virt) => r, log := DoRelease(m, c, virt);
      case Switch(cpu, c) => r, log := DoSwitch(m, cpu, c);
      case Kill(c) => r, log := DoKill(m, c);
    }
    reply := Reply(r, out);
    SameCpus(op, reply, log, old(Now(m)), Now(m));
  }

  lemma Cpus(m: AddressSpaces)
    requires m.pmm.Valid()
    ensures |Now(m).current| == |m.current|
  {
  }

  lemma SameCpus(op: Op, reply: Reply, log: seq<Step>, a: Machine, b: Machine)
    requires Did(op, reply, log, a, b)
    ensures |b.current| == |a.current|
  {
  }

  // ----- whole runs -----

  ghost predicate Ran(ops: seq<Op>, replies: seq<Reply>, logs: seq<seq<Step>>, trace: seq<Machine>) {
    && |replies| == |logs| == |ops| && |trace| == |ops| + 1
    && forall i :: 0 <= i < |ops| ==> Did(ops[i], replies[i], logs[i], trace[i], trace[i + 1])
  }

  /** Any sequence of operations, with any pattern of failures underneath: the
      spaces always read as if every fork had copied all private pages. */
  method Run(m: AddressSpaces, ops: seq<Op>)
    returns (replies: seq<Reply>, ghost logs: seq<seq<Step>>, ghost trace: seq<Machine>)
    requires m.Valid() && forall i :: 0 <= i < |ops| ==> Sensible(ops[i], |m.current|, m.pmm.limit)
    modifies m, m.pmm`freePages, m.pmm`searchStart, m.pmm.bitmap, m.pmm.refs
    ensures m.Valid() && Ran(ops, replies, logs, trace) && trace[0] == old(Now(m)) && trace[|ops|] == Now(m)
  {
    hide Did, Now, Inv;
    Cpus(m);
    replies, logs, trace := [], [], [Now(m)];
    for i := 0 to |ops|
      invariant m.Valid() && |Now(m).current| == |old(Now(m)).current| && |replies| == |logs| == i && |trace| == i + 1
      invariant trace[0] == old(Now(m)) && trace[i] == Now(m)
      invariant forall j :: 0 <= j < i ==> Did(ops[j], replies[j], logs[j], trace[j], trace[j + 1])
    {
      var reply;
      ghost var log;
      assert |m.current| == |old(m.current)| by { Cpus(m); }
      reply, log := Do(m, ops[i]);
      replies, logs, trace := replies + [reply], logs + [log], trace + [Now(m)];
    }
  }

  /** The operation names the page of that space for writing or removal. */
  ghost predicate Asks(op: Op, d: nat, page: nat) {
    || (op.Write? && op.c == d && PageOf(op.address) == page)
    || (op.CopyTo? && op.c == d && op.address < page + PAGE_SIZE && page < op.address + |op.data|)
    || (op.Release? && op.c == d && op.virt == page)
    || (op.Kill? && op.c == d)
  }

  /** The operation may change this byte of that space. */
  ghost predicate Alters(op: Op, d: nat, address: nat) {
    || (op.Write? && op.c == d && op.address == address)
    || (op.CopyTo? && op.c == d && op.address <= address < op.address + |op.data|)
    || (op.Release? && op.c == d && op.virt == PageOf(address))
    || (op.Kill? && op.c == d)
  }

  ghost predicate Private(a: seq<Space>, d: nat, page: nat) {
    d < |a| && page in a[d].pages && a[d].pages[page].home == None
  }

  ghost function ByteAt(a: seq<Space>, d: nat, address: nat): bv8
    requires Private(a, d, PageOf(address))
  {
    a[d].pages[PageOf(address)].data[address % PAGE_SIZE]
  }

  lemma {:induction false} StoresWithin(log: seq<Step>, c: nat, mm: int, start: nat)
    requires Contiguous(log, c, mm, start)
    ensures forall e :: e in log ==> e.Grow? || (e.Store? && e.c == c && start <= e.address < start + |Bytes(log)|)
  {
    if log != [] {
      StoresWithin(log[..|log| - 1], c, mm, start);
      assert log == log[..|log| - 1] + [log[|log| - 1]];
    }
  }

  /** An operation that does not name a page takes no step that hits it. */
  lemma Misses(op: Op, reply: Reply, log: seq<Step>, a: Machine, b: Machine, d: nat, page: nat)
    requires Did(op, reply, log, a, b) && !Asks(op, d, page)
    ensures forall e :: e in log ==> !Hits(e, d, page)
  {
    hide ApplyAll, Landed, Faulted, ProcAfter, AllReadable, HoldsAll, Contiguous, Bytes, Meant;
    if op.CopyTo? && log != [] {
      StoresWithin(log, op.c, SpaceOf(a.proc), op.address);
      forall e | e in log ensures !Hits(e, d, page) {
        if e.Store? { PageArith(PageOf(e.address), PAGE_SIZE, e.address); }
      }
    }
  }

  /** Isolation over runs: a private page that no operation names is the same page with
      the same bytes and the same permissions at the end, whoever forked, wrote or died. */
  lemma {:induction false} RunIsolation(ops: seq<Op>, replies: seq<Reply>, logs: seq<seq<Step>>, trace: seq<Machine>,
                                        from: nat, till: nat, d: nat, page: nat)
    requires Ran(ops, replies, logs, trace) && from <= till <= |ops|
    requires Private(trace[from].spaces, d, page)
    requires forall i :: from <= i < till ==> !Asks(ops[i], d, page)
    ensures Private(trace[till].spaces, d, page)
    ensures trace[till].spaces[d].pages[page] == trace[from].spaces[d].pages[page]
    decreases till
  {
    hide Asks, ApplyAll, Landed, Hits;
    if from < till {
      var n := till - 1;
      RunIsolation(ops, replies, logs, trace, from, n, d, page);
      Misses(ops[n], replies[n], logs[n], trace[n], trace[till], d, page);
      Isolation(trace[n].spaces, logs[n], d, page);
    }
  }

  /** A page that user code may write stays one until it goes, its space goes or its space is forked. */
  lemma {:induction false} OpenKept(ops: seq<Op>, replies: seq<Reply>, logs: seq<seq<Step>>, trace: seq<Machine>,
                                    from: nat, till: nat, c: int, page: nat)
    requires Ran(ops, replies, logs, trace) && from <= till <= |ops| && Opens(trace[from], c, page)
    requires forall i :: from <= i < till ==> !Closes(ops[i], c, page)
    ensures Opens(trace[till], c, page)
    decreases till
  {
    if from < till {
      var n := till - 1;
      OpenKept(ops, replies, logs, trace, from, n, c, page);
      assert Did(ops[n], replies[n], logs[n], trace[n], trace[till]);
    }
  }

  /** A page came into being under a space, or was split, for user code to write. */
  ghost predicate Opening(op: Op, reply: Reply, a: Machine, b: Machine, c: int, page: nat) {
    && reply.result == 0
    && match op
       case Allocate(d, virt, flags) => c == d && page == virt && flags.user && flags.writable
       case Attach(d, virt, _, flags) => c == d && page == virt && flags.user && flags.writable
       case Fault(address, isWrite) =>
         && FaultOpens(address, isWrite, a.proc, a.spaces, a.inner.slots)
         && c == a.proc.value.mm && page == PageOf(address)
         && 0 <= c < |b.spaces| && page in b.spaces[c].pages && b.spaces[c].pages[page].flags.user
       case _ => false
  }

  /** From then on every store of user code to the page succeeds, until the page goes, its space goes or is forked. */
  lemma ThenWritable(ops: seq<Op>, replies: seq<Reply>, logs: seq<seq<Step>>, trace: seq<Machine>, i: nat, j: nat,
                     c: int, page: nat)
    requires Ran(ops, replies, logs, trace) && i < j < |ops|
    requires Opening(ops[i], replies[i], trace[i], trace[i + 1], c, page)
    requires forall n :: i < n < j ==> !Closes(ops[n], c, page)
    requires ops[j].Write? && ops[j].c == c && PageOf(ops[j].address) == page
    ensures replies[j].result == 0
  {
    hide PageOf, ApplyAll, Landed, Closes;
    assert Did(ops[i], replies[i], logs[i], trace[i], trace[i + 1]);
    OpenKept(ops, replies, logs, trace, i + 1, j, c, page);
    assert Did(ops[j], replies[j], logs[j], trace[j], trace[j + 1]);
  }

  // ----- what forks, stores and copies mean over a run -----

  /** A fork copies: at once the child has every page of the parent, and from then on each
      side keeps a private page, bytes and permissions, for as long as it is not itself
      asked to change it, whatever the other side does to its own. */
  lemma ForkCopies(ops: seq<Op>, replies: seq<Reply>, logs: seq<seq<Step>>, trace: seq<Machine>, i: nat, till: nat,
                   page: nat)
    requires Ran(ops, replies, logs, trace) && i < till <= |ops|
    requires ops[i].Clone? && replies[i].result >= 0 && Lives(trace[i].spaces, ops[i].source)
    ensures var parent, child := ops[i].source, replies[i].result;
      && child < |trace[i].spaces| == |trace[i + 1].spaces| && child != parent
      && trace[i + 1].spaces == trace[i].spaces[child := trace[i].spaces[parent]]
    ensures var parent, child := ops[i].source, replies[i].result;
      Private(trace[i].spaces, parent, page) && (forall j :: i < j < till ==> !Asks(ops[j], child, page)) ==>
        && Private(trace[till].spaces, child, page)
        && trace[till].spaces[child].pages[page] == trace[i].spaces[parent].pages[page]
    ensures var parent, child := ops[i].source, replies[i].result;
      Private(trace[i].spaces, parent, page) && (forall j :: i < j < till ==> !Asks(ops[j], parent, page)) ==>
        && Private(trace[till].spaces, parent, page)
        && trace[till].spaces[parent].pages[page] == trace[i].spaces[parent].pages[page]
  {
    hide Asks, Landed;
    var parent, child := ops[i].source, replies[i].result;
    assert Did(ops[i], replies[i], logs[i], trace[i], trace[i + 1]);
    ForkedOnce(trace[i].spaces, parent, child);
    if Private(trace[i].spaces, parent, page) {
      if forall j :: i < j < till ==> !Asks(ops[j], child, page) {
        RunIsolation(ops, replies, logs, trace, i + 1, till, child, page);
      }
      if forall j :: i < j < till ==> !Asks(ops[j], parent, page) {
        RunIsolation(ops, replies, logs, trace, i + 1, till, parent, page);
      }
    }
  }

  lemma ForkedOnce(a: seq<Space>, parent: nat, child: nat)
    requires child < |a| && parent < |a| && child != parent
    ensures ApplyAll(a, [New(child), Fork(parent, child)]) == a[child := a[parent]]
  {
    var log := [New(child), Fork(parent, child)];
    assert log == [New(child)] + [Fork(parent, child)] && [New(child)] == [] + [New(child)];
    ApplyOne(a, [], New(child));
    ApplyOne(a, [New(child)], Fork(parent, child));
  }

  /** One operation leaves every byte alone that it is not asked to change. */
  lemma ByteStep(op: Op, reply: Reply, log: seq<Step>, a: Machine, b: Machine, d: nat, address: nat)
    requires Did(op, reply, log, a, b) && Private(a.spaces, d, PageOf(address)) && !Alters(op, d, address)
    ensures Private(b.spaces, d, PageOf(address)) && ByteAt(b.spaces, d, address) == ByteAt(a.spaces, d, address)
  {
    hide Faulted, ProcAfter, AllReadable, HoldsAll, Contiguous, Bytes, Meant, Landed, ApplyAll, ApplyStore, EagerStore;
    if op.CopyTo? {
      LogNil(a.spaces);
      if log != [] {
        ContiguousEffect(a.spaces, log, op.c, SpaceOf(a.proc), op.address, d, address);
      }
    } else if op.Write? {
      LogNil(a.spaces);
      if log != [] {
        OneStore(a.spaces, op.c, op.address, op.value);
        StoreByte(a.spaces, op.c, op.address, [op.value], d, address);
      }
    } else {
      Misses(op, reply, log, a, b, d, PageOf(address));
      Isolation(a.spaces, log, d, PageOf(address));
    }
  }

  lemma OneStore(a: seq<Space>, c: nat, address: nat, value: bv8)
    requires c < |a|
    ensures ApplyAll(a, [Store(c, address, [value])]) == ApplyStore(a, c, address, [value])
  {
    assert [Store(c, address, [value])] == [] + [Store(c, address, [value])];
    ApplyOne(a, [], Store(c, address, [value]));
  }

  /** Byte by byte: what no operation of the stretch may change is what it was. */
  lemma {:induction false} ByteKept(ops: seq<Op>, replies: seq<Reply>, logs: seq<seq<Step>>, trace: seq<Machine>,
                                    from: nat, till: nat, d: nat, address: nat)
    requires Ran(ops, replies, logs, trace) && from <= till <= |ops| && Private(trace[from].spaces, d, PageOf(address))
    requires forall i :: from <= i < till ==> !Alters(ops[i], d, address)
    ensures Private(trace[till].spaces, d, PageOf(address)) &&
      ByteAt(trace[till].spaces, d, address) == ByteAt(trace[from].spaces, d, address)
    decreases till
  {
    hide Alters, Did, PageOf, Private, ByteAt;
    if from < till {
      ByteKept(ops, replies, logs, trace, from, till - 1, d, address);
      ByteStep(ops[till - 1], replies[till - 1], logs[till - 1], trace[till - 1], trace[till], d, address);
    }
  }

  /** The bytes a contiguous log stored are there, in private pages, when it ends. */
  lemma {:induction false} Wrote(a: seq<Space>, log: seq<Step>, c: nat, mm: int, start: nat, address: nat)
    requires Contiguous(log, c, mm, start) && Landed(a, log) && start <= address < start + |Bytes(log)|
    ensures c < |a| && PageOf(address) in ApplyAll(a, log)[c].pages
    ensures Private(ApplyAll(a, log), c, PageOf(address)) ==>
      ByteAt(ApplyAll(a, log), c, address) == Bytes(log)[address - start]
  {
    hide ApplyStore, EagerStore;
    var n := |log| - 1;
    var e, b := log[n], ApplyAll(a, log[..n]);
    if e.Store? {
      PageArith(e.address, |e.bytes|, address);
      if address < e.address { Wrote(a, log[..n], c, mm, start, address); }
      StoreHome(b, c, e.address, e.bytes, PageOf(address));
      if b[c].pages[PageOf(address)].home == None {
        StoreByte(b, c, e.address, e.bytes, c, address);
      }
    } else {
      Wrote(a, log[..n], c, mm, start, address);
    }
  }

  lemma StoreHome(a: seq<Space>, c: nat, at: nat, bytes: seq<bv8>, page: nat)
    requires c < |a| && page in a[c].pages
    ensures page in ApplyStore(a, c, at, bytes)[c].pages
    ensures ApplyStore(a, c, at, bytes)[c].pages[page].home == a[c].pages[page].home
  {
  }

  /** What was copied to a space comes back from it: through private pages, and with no
      operation in between that may change one of the bytes, a successful read of the
      range returns exactly the bytes of the successful write. */
  lemma ReadsBack(ops: seq<Op>, replies: seq<Reply>, logs: seq<seq<Step>>, trace: seq<Machine>, i: nat, j: nat)
    requires Ran(ops, replies, logs, trace) && i < j < |ops|
    requires ops[i].CopyTo? && replies[i].result == 0 && ops[j].CopyFrom? && replies[j].result == 0
    requires ops[j].c == ops[i].c && ops[j].address == ops[i].address && ops[j].size == |ops[i].data|
    requires AllPrivate(trace[i + 1].spaces, ops[i].c, ops[i].address, |ops[i].data|)
    requires forall n :: i < n < j ==> AltersNone(ops[n], ops[i].c, ops[i].address, |ops[i].data|)
    ensures replies[j].bytes == ops[i].data
  {
    hide HoldsAll, AllReadable, Alters, PageOf, Private;
    assert Did(ops[i], replies[i], logs[i], trace[i], trace[i + 1]);
    assert Did(ops[j], replies[j], logs[j], trace[j], trace[j + 1]);
    forall k | 0 <= k < |ops[i].data| ensures replies[j].bytes[k] == ops[i].data[k] {
      var address: nat := ops[i].address + k;
      assert Private(trace[i + 1].spaces, ops[i].c, PageOf(address));
      forall n | i < n < j ensures !Alters(ops[n], ops[i].c, address) {
        assert AltersNone(ops[n], ops[i].c, ops[i].address, |ops[i].data|);
      }
      ReadsByte(ops, replies, logs, trace, i, j, k);
    }
  }

  ghost predicate AllPrivate(a: seq<Space>, c: int, start: nat, size: nat) {
    c >= 0 && forall address: nat :: start <= address < start + size ==> Private(a, c, PageOf(address))
  }

  ghost predicate AltersNone(op: Op, c: int, start: nat, size: nat) {
    c >= 0 && forall address: nat :: start <= address < start + size ==> !Alters(op, c, address)
  }

  lemma ReadsByte(ops: seq<Op>, replies: seq<Reply>, logs: seq<seq<Step>>, trace: seq<Machine>, i: nat, j: nat, k: nat)
    requires Ran(ops, replies, logs, trace) && i < j < |ops|
    requires ops[i].CopyTo? && replies[i].result == 0 && ops[j].CopyFrom? && replies[j].result == 0
    requires ops[j].c == ops[i].c >= 0 && ops[j].address == ops[i].address && ops[j].size == |ops[i].data|
    requires k < |ops[i].data|
    requires Private(trace[i + 1].spaces, ops[i].c, PageOf(ops[i].address + k))
    requires forall n :: i < n < j ==> !Alters(ops[n], ops[i].c, ops[i].address + k)
    ensures |replies[j].bytes| == |ops[i].data| && replies[j].bytes[k] == ops[i].data[k]
  {
    hide PageOf, ApplyAll, Landed, Contiguous, Bytes, Faulted, ProcAfter, GrowsIn, AllReadable;
    var c, address := ops[i].c, ops[i].address + k;
    assert Did(ops[i], replies[i], logs[i], trace[i], trace[i + 1]);
    assert Did(ops[j], replies[j], logs[j], trace[j], trace[j + 1]);
    assert logs[i] != [] by { LogNil(trace[i].spaces); }
    Wrote(trace[i].spaces, logs[i], c, SpaceOf(trace[i].proc), ops[i].address, address);
    ByteKept(ops, replies, logs, trace, i + 1, j, c, address);
    ByteStep(ops[j], replies[j], logs[j], trace[j], trace[j + 1], c, address);
    assert Holds(trace[j + 1].spaces, c, address, replies[j].bytes[k]);
  }
}
