/** Address spaces as values: the mappings kept by src/mm/vmm.c, how often they
    own each frame, and the simple machine in which fork copies every page. */
module Cow {
  import opened Pmm

  type Page = p: seq<bv8> | |p| == PAGE_SIZE witness seq(PAGE_SIZE, _ => 0)
  type Memory = m: imap<nat, Page> | forall a: nat :: a in m ghost witness (imap a: nat :: ZeroPage())

  function ZeroPage(): (z: Page)
    ensures forall i :: 0 <= i < PAGE_SIZE ==> z[i] == 0
  {
    seq(PAGE_SIZE, _ => 0)
  }

  const MAX_CONTEXTS := 32
  const MAX_MAPPINGS := 512

  datatype Flags = Flags(present: bool, writable: bool, user: bool, nocache: bool, executable: bool, cow: bool)
  datatype Mapping = Mapping(virt: nat, phys: nat, flags: Flags, owned: bool)
  datatype Pte = Pte(phys: nat, flags: Flags)
  datatype Slot = Slot(used: bool, mappings: seq<Mapping>, table: map<nat, Pte>, nextFree: nat)

  const EmptySlot := Slot(false, [], map[], 0)

  function PageOf(address: nat): (page: nat) { address - address % PAGE_SIZE }
  function FrameOf(m: Mapping): nat { m.phys / PAGE_SIZE }

  // ----- what a slot must look like -----

  ghost predicate MappingOk(m: Mapping, limit: nat) {
    && m.virt > 0 && m.virt % PAGE_SIZE == 0 && m.phys > 0 && m.phys % PAGE_SIZE == 0
    && m.flags.present && (m.owned ==> FrameOf(m) < limit)
  }

  /** The same flags, but perhaps not writable yet. */
  predicate Within(fl: Flags, g: Flags) {
    (fl.writable ==> g.writable) && fl == g.(writable := fl.writable, cow := fl.cow)
  }

  /** The hardware entry for a mapping: same frame, same flags, never more writable. */
  ghost predicate Backed(m: Mapping, table: map<nat, Pte>) {
    m.virt in table && table[m.virt].phys == m.phys && Within(table[m.virt].flags, m.flags)
  }

  ghost predicate Distinct(ms: seq<Mapping>) {
    forall i, j :: 0 <= i < j < |ms| ==> ms[i].virt != ms[j].virt
  }

  ghost function Virts(ms: seq<Mapping>): set<nat> {
    if ms == [] then {} else Virts(ms[..|ms| - 1]) + {ms[|ms| - 1].virt}
  }

  ghost predicate SlotOk(s: Slot, limit: nat) {
    && (!s.used ==> s == EmptySlot)
    && |s.mappings| <= MAX_MAPPINGS
    && (forall i :: 0 <= i < |s.mappings| ==> MappingOk(s.mappings[i], limit))
    && Distinct(s.mappings)
    && (forall i :: 0 <= i < |s.mappings| ==> Backed(s.mappings[i], s.table))
    && s.table.Keys == Virts(s.mappings)
  }

  lemma {:induction false} VirtsAre(ms: seq<Mapping>)
    ensures forall i :: 0 <= i < |ms| ==> ms[i].virt in Virts(ms)
    ensures forall v :: v in Virts(ms) ==> exists i :: 0 <= i < |ms| && ms[i].virt == v
  {
    if ms != [] {
      var n := |ms| - 1;
      VirtsAre(ms[..n]);
      forall v | v in Virts(ms) ensures exists i :: 0 <= i < |ms| && ms[i].virt == v {
        if v in Virts(ms[..n]) {
          var i :| 0 <= i < n && ms[..n][i].virt == v;
          assert ms[i].virt == v;
        } else {
          assert ms[n].virt == v;
        }
      }
      forall i | 0 <= i < |ms| ensures ms[i].virt in Virts(ms) {
        if i < n { assert ms[..n][i] == ms[i]; }
      }
    }
  }

  /** Rewriting one mapping and its hardware entry in place. */
  lemma SlotRewrite(s: Slot, limit: nat, k: nat, m: Mapping, fl: Flags)
    requires SlotOk(s, limit) && k < |s.mappings| && m.virt == s.mappings[k].virt && MappingOk(m, limit)
    requires Within(fl, m.flags)
    ensures SlotOk(s.(mappings := s.mappings[k := m], table := s.table[m.virt := Pte(m.phys, fl)]), limit)
  {
    hide Virts;
    VirtsUpdate(s.mappings, k, m);
    VirtsAre(s.mappings);
    assert s.table[m.virt := Pte(m.phys, fl)].Keys == s.table.Keys;
  }

  lemma {:induction false} VirtsUpdate(ms: seq<Mapping>, k: nat, m: Mapping)
    requires k < |ms| && m.virt == ms[k].virt
    ensures Virts(ms[k := m]) == Virts(ms)
  {
    var n := |ms| - 1;
    if k == n {
      assert ms[k := m][..n] == ms[..n];
    } else {
      assert ms[k := m][..n] == ms[..n][k := m];
      VirtsUpdate(ms[..n], k, m);
    }
  }

  /** Recording more permission than the hardware entry grants is harmless. */
  lemma SlotRelax(s: Slot, limit: nat, k: nat, m: Mapping)
    requires SlotOk(s, limit) && k < |s.mappings| && MappingOk(m, limit) && m == s.mappings[k].(flags := m.flags)
    requires Within(s.mappings[k].flags, m.flags)
    ensures SlotOk(s.(mappings := s.mappings[k := m]), limit)
  {
    hide Virts;
    VirtsUpdate(s.mappings, k, m);
  }

  lemma VirtsAppend(ms: seq<Mapping>, m: Mapping)
    ensures Virts(ms + [m]) == Virts(ms) + {m.virt}
  {
    assert (ms + [m])[..|ms|] == ms;
  }

  lemma SlotAppend(s: Slot, limit: nat, m: Mapping, fl: Flags)
    requires SlotOk(s, limit) && s.used && |s.mappings| < MAX_MAPPINGS && MappingOk(m, limit)
    requires forall i :: 0 <= i < |s.mappings| ==> s.mappings[i].virt != m.virt
    requires Within(fl, m.flags)
    ensures SlotOk(s.(mappings := s.mappings + [m], table := s.table[m.virt := Pte(m.phys, fl)]), limit)
  {
    hide Virts;
    VirtsAppend(s.mappings, m);
    assert s.table[m.virt := Pte(m.phys, fl)].Keys == s.table.Keys + {m.virt};
  }

  function Without(ms: seq<Mapping>, k: nat): seq<Mapping>
    requires k < |ms|
  {
    ms[k := ms[|ms| - 1]][..|ms| - 1]
  }

  lemma SlotRemove(s: Slot, limit: nat, k: nat)
    requires SlotOk(s, limit) && k < |s.mappings|
    ensures SlotOk(s.(mappings := Without(s.mappings, k), table := s.table - {s.mappings[k].virt}), limit)
  {
    VirtsWithout(s.mappings, k);
    WithoutAt(s.mappings, k);
    assert (s.table - {s.mappings[k].virt}).Keys == s.table.Keys - {s.mappings[k].virt};
  }

  lemma VirtsWithout(ms: seq<Mapping>, k: nat)
    requires k < |ms| && Distinct(ms)
    ensures Virts(Without(ms, k)) == Virts(ms) - {ms[k].virt}
  {
    var n := |ms| - 1;
    var init := ms[..n];
    assert Distinct(init) && Virts(ms) == Virts(init) + {ms[n].virt};
    if k < n {
      assert Without(ms, k) == init[k := ms[n]];
      VirtsReplace(init, k, ms[n]);
      assert init[k] == ms[k] && ms[k].virt != ms[n].virt;
    } else {
      assert Without(ms, k) == init;
      assert ms[n].virt !in Virts(init) by {
        VirtsAre(init);
        assert forall i :: 0 <= i < n ==> init[i] == ms[i];
      }
    }
  }

  lemma WithoutAt(ms: seq<Mapping>, k: nat)
    requires k < |ms|
    ensures |Without(ms, k)| == |ms| - 1
    ensures forall i :: 0 <= i < |ms| - 1 ==> Without(ms, k)[i] in ms
    ensures forall i :: 0 <= i < |ms| - 1 ==> Without(ms, k)[i] == (if i == k then ms[|ms| - 1] else ms[i])
    ensures Distinct(ms) ==>
      Distinct(Without(ms, k)) && forall i :: 0 <= i < |ms| - 1 ==> Without(ms, k)[i].virt != ms[k].virt
  {
  }

  lemma {:induction false} VirtsReplace(ms: seq<Mapping>, k: nat, m: Mapping)
    requires k < |ms| && Distinct(ms)
    ensures Virts(ms[k := m]) == Virts(ms) - {ms[k].virt} + {m.virt}
  {
    var n := |ms| - 1;
    VirtsAre(ms[..n]);
    if k == n {
      assert ms[k := m][..n] == ms[..n];
    } else {
      assert ms[k := m][..n] == ms[..n][k := m];
      VirtsReplace(ms[..n], k, m);
    }
  }

  ghost predicate SlotsOk(slots: seq<Slot>, limit: nat) {
    |slots| == MAX_CONTEXTS && forall c :: 0 <= c < |slots| ==> SlotOk(slots[c], limit)
  }

  // ----- how often each frame is owned -----

  ghost function Share(m: Mapping, f: nat): nat {
    if m.owned && FrameOf(m) == f then 1 else 0
  }

  ghost function Owned(ms: seq<Mapping>, f: nat): nat {
    if ms == [] then 0 else Owned(ms[..|ms| - 1], f) + Share(ms[|ms| - 1], f)
  }

  ghost function AllOwned(slots: seq<Slot>, f: nat): nat {
    if slots == [] then 0 else AllOwned(slots[..|slots| - 1], f) + Owned(slots[|slots| - 1].mappings, f)
  }

  lemma OwnedAppend(ms: seq<Mapping>, m: Mapping, f: nat)
    ensures Owned(ms + [m], f) == Owned(ms, f) + Share(m, f)
  {
    assert (ms + [m])[..|ms|] == ms;
  }

  lemma {:induction false} OwnedUpdate(ms: seq<Mapping>, i: nat, m: Mapping, f: nat)
    requires i < |ms|
    ensures Owned(ms[i := m], f) == Owned(ms, f) + Share(m, f) - Share(ms[i], f)
  {
    var n := |ms| - 1;
    if i == n {
      assert ms[i := m][..n] == ms[..n];
    } else {
      assert ms[i := m][..n] == ms[..n][i := m];
      OwnedUpdate(ms[..n], i, m, f);
    }
  }

  lemma OwnedRemove(ms: seq<Mapping>, i: nat, f: nat)
    requires i < |ms|
    ensures Owned(Without(ms, i), f) == Owned(ms, f) - Share(ms[i], f)
  {
    var n := |ms| - 1;
    if i < n {
      assert ms[i := ms[n]][..n] == ms[..n][i := ms[n]];
      OwnedUpdate(ms[..n], i, ms[n], f);
    } else {
      assert ms[i := ms[n]][..n] == ms[..n];
    }
  }

  lemma {:induction false} OwnedIncludes(ms: seq<Mapping>, i: nat, j: nat, f: nat)
    requires i <= j < |ms|
    ensures Owned(ms, f) >= Share(ms[i], f) + if i < j then Share(ms[j], f) else 0
  {
    var n := |ms| - 1;
    if j < n {
      OwnedIncludes(ms[..n], i, j, f);
    } else if i < n {
      OwnedIncludes(ms[..n], i, i, f);
    }
  }

  lemma {:induction false} AllOwnedUpdate(slots: seq<Slot>, c: nat, s: Slot, f: nat)
    requires c < |slots|
    ensures AllOwned(slots[c := s], f) == AllOwned(slots, f) + Owned(s.mappings, f) - Owned(slots[c].mappings, f)
  {
    var n := |slots| - 1;
    if c == n {
      assert slots[c := s][..n] == slots[..n];
    } else {
      assert slots[c := s][..n] == slots[..n][c := s];
      AllOwnedUpdate(slots[..n], c, s, f);
    }
  }

  lemma {:induction false} AllOwnedIncludes(slots: seq<Slot>, c: nat, d: nat, f: nat)
    requires c <= d < |slots|
    ensures AllOwned(slots, f) >= Owned(slots[c].mappings, f) + if c < d then Owned(slots[d].mappings, f) else 0
  {
    var n := |slots| - 1;
    if d < n {
      AllOwnedIncludes(slots[..n], c, d, f);
    } else if c < n {
      AllOwnedIncludes(slots[..n], c, c, f);
    }
  }

  ghost predicate At(slots: seq<Slot>, c: int, i: int) {
    0 <= c < |slots| && 0 <= i < |slots[c].mappings|
  }

  /** Two different mappings that own one frame are two of its owners. */
  lemma TwoOwners(slots: seq<Slot>, c: nat, i: nat, d: nat, j: nat)
    requires At(slots, c, i) && At(slots, d, j) && (c != d || i != j)
    requires slots[c].mappings[i].owned && slots[d].mappings[j].owned
    requires FrameOf(slots[c].mappings[i]) == FrameOf(slots[d].mappings[j])
    ensures AllOwned(slots, FrameOf(slots[c].mappings[i])) >= 2
  {
    var f := FrameOf(slots[c].mappings[i]);
    if c == d {
      OwnedIncludes(slots[c].mappings, if i < j then i else j, if i < j then j else i, f);
      AllOwnedIncludes(slots, c, c, f);
    } else {
      OwnedIncludes(slots[c].mappings, i, i, f);
      OwnedIncludes(slots[d].mappings, j, j, f);
      AllOwnedIncludes(slots, if c < d then c else d, if c < d then d else c, f);
    }
  }

  lemma OneOwner(slots: seq<Slot>, c: nat, i: nat)
    requires At(slots, c, i) && slots[c].mappings[i].owned
    ensures AllOwned(slots, FrameOf(slots[c].mappings[i])) >= 1
  {
    OwnedIncludes(slots[c].mappings, i, i, FrameOf(slots[c].mappings[i]));
    AllOwnedIncludes(slots, c, c, FrameOf(slots[c].mappings[i]));
  }

  // ----- the global invariant -----

  /** Every reference to a frame is an owned mapping or is held by others. */
  ghost predicate Counted(slots: seq<Slot>, p: Frames, others: multiset<nat>) {
    forall f :: 0 <= f < |p.refs| ==> p.refs[f] == AllOwned(slots, f) + others[f]
  }

  /** An owned page that may be written in place has no other reference; a
      frame mapped without being owned is held by somebody else only. */
  ghost predicate Fits(m: Mapping, p: Frames, others: multiset<nat>) {
    var f := FrameOf(m);
    && (m.owned ==> f < |p.refs| && (m.flags.writable ==> p.refs[f] == 1))
    && (!m.owned ==> f >= |p.refs| || p.refs[f] == others[f] > 0)
  }

  ghost predicate AllFit(slots: seq<Slot>, p: Frames, others: multiset<nat>) {
    forall c, i :: At(slots, c, i) ==> Fits(slots[c].mappings[i], p, others)
  }

  ghost predicate Inv(slots: seq<Slot>, p: Frames, others: multiset<nat>) {
    Sound(p) && SlotsOk(slots, |p.refs|) && Counted(slots, p, others) && AllFit(slots, p, others)
  }

  /** A frame with two owned mappings is writable through neither, and a frame
      that some mapping owns is never free. */
  lemma SharedIsReadOnly(slots: seq<Slot>, p: Frames, others: multiset<nat>, c: nat, i: nat, d: nat, j: nat)
    requires Inv(slots, p, others) && At(slots, c, i) && At(slots, d, j) && (c != d || i != j)
    requires slots[c].mappings[i].owned && slots[d].mappings[j].owned
    requires FrameOf(slots[c].mappings[i]) == FrameOf(slots[d].mappings[j])
    ensures !slots[c].mappings[i].flags.writable && !slots[d].mappings[j].flags.writable
    ensures p.refs[FrameOf(slots[c].mappings[i])] >= 2 && p.used[FrameOf(slots[c].mappings[i])]
  {
    hide SlotOk, CountClear;
    TwoOwners(slots, c, i, d, j);
    assert Fits(slots[c].mappings[i], p, others) && Fits(slots[d].mappings[j], p, others);
  }

  // ----- the machine in which fork copies -----

  datatype Option<T> = None | Some(value: T)

  /** A page as a process sees it; `home` is set for memory that is shared on
      purpose (mapped, not owned) and so is not copied by fork either. */
  datatype View = View(flags: Flags, home: Option<nat>, data: Page)
  datatype Space = Space(used: bool, pages: map<nat, View>, nextFree: nat)

  /** The permission a process really has: a copy-on-write page is writable. */
  ghost function Meant(m: Mapping): Flags {
    if m.owned then m.flags.(writable := m.flags.writable || m.flags.cow, cow := false) else m.flags
  }

  ghost function ViewOf(m: Mapping, mem: Memory): View {
    View(Meant(m), if m.owned then None else Some(m.phys), mem[m.phys])
  }

  ghost function Pages(ms: seq<Mapping>, mem: Memory): map<nat, View> {
    if ms == [] then map[] else Pages(ms[..|ms| - 1], mem)[ms[|ms| - 1].virt := ViewOf(ms[|ms| - 1], mem)]
  }

  ghost function Spaces(slots: seq<Slot>, mem: Memory): (a: seq<Space>)
    ensures |a| == |slots|
    ensures forall c :: 0 <= c < |slots| ==> a[c] == Space(slots[c].used, Pages(slots[c].mappings, mem),
                                                           slots[c].nextFree)
  {
    seq(|slots|, c requires 0 <= c < |slots| => Space(slots[c].used, Pages(slots[c].mappings, mem), slots[c].nextFree))
  }

  lemma {:induction false} PagesAt(ms: seq<Mapping>, mem: Memory)
    requires Distinct(ms)
    ensures forall i :: 0 <= i < |ms| ==>
      ms[i].virt in Pages(ms, mem) && Pages(ms, mem)[ms[i].virt] == ViewOf(ms[i], mem)
    ensures forall v :: v in Pages(ms, mem) ==> exists i :: 0 <= i < |ms| && ms[i].virt == v
  {
    if ms != [] {
      var n := |ms| - 1;
      PagesAt(ms[..n], mem);
      assert forall i :: 0 <= i < n ==> ms[..n][i] == ms[i];
    }
  }

  /** The pages of one space after a store to its own page `here` or to the
      deliberately shared page `home`. */
  ghost function Touched(pages: map<nat, View>, here: Option<nat>, home: Option<nat>, data: Page): map<nat, View> {
    map v | v in pages ::
      if here == Some(v) || (home.Some? && pages[v].home == home) then pages[v].(data := data) else pages[v]
  }

  /** A store in the simple machine: one page of one space, or every view of
      the same deliberately shared page. */
  ghost function EagerStore(a: seq<Space>, c: nat, page: nat, data: Page): seq<Space>
    requires c < |a| && page in a[c].pages
  {
    var home := a[c].pages[page].home;
    seq(|a|, d requires 0 <= d < |a| => a[d].(pages := Touched(a[d].pages, if d == c then Some(page) else None, home,
                                                               data)))
  }

  /** Writing a frame through a mapping that may write changes what the simple
      machine says it changes, and nothing that any other space can see. */
  lemma StoreRefines(slots: seq<Slot>, p: Frames, others: multiset<nat>, mem: Memory, c: nat, k: nat, data: Page)
    requires Inv(slots, p, others) && At(slots, c, k) && slots[c].mappings[k].flags.writable
    ensures slots[c].mappings[k].virt in Spaces(slots, mem)[c].pages
    ensures Spaces(slots, mem[slots[c].mappings[k].phys := data])
         == EagerStore(Spaces(slots, mem), c, slots[c].mappings[k].virt, data)
  {
    var m := slots[c].mappings[k];
    PagesAt(slots[c].mappings, mem);
    forall d | 0 <= d < |slots|
      ensures Spaces(slots, mem[m.phys := data])[d] == EagerStore(Spaces(slots, mem), c, m.virt, data)[d]
    {
      StoreSlot(slots, p, others, mem, c, k, data, d);
    }
  }

  lemma StoreSlot(slots: seq<Slot>, p: Frames, others: multiset<nat>, mem: Memory, c: nat, k: nat, data: Page, d: nat)
    requires Inv(slots, p, others) && At(slots, c, k) && slots[c].mappings[k].flags.writable && d < |slots|
    requires slots[c].mappings[k].virt in Spaces(slots, mem)[c].pages
    ensures Spaces(slots, mem[slots[c].mappings[k].phys := data])[d]
         == EagerStore(Spaces(slots, mem), c, slots[c].mappings[k].virt, data)[d]
  {
    var m, ms := slots[c].mappings[k], slots[d].mappings;
    PagesAt(slots[c].mappings, mem);
    forall i | 0 <= i < |ms|
      ensures ms[i].phys == m.phys <==>
        (d == c && ms[i].virt == m.virt) || (!ms[i].owned && !m.owned && ms[i].phys == m.phys)
    {
      StoreSeenBy(slots, p, others, c, k, d, i);
    }
    StorePages(ms, m, mem, data, d == c);
  }

  lemma StorePages(ms: seq<Mapping>, m: Mapping, mem: Memory, data: Page, same: bool)
    requires Distinct(ms)
    requires forall i :: 0 <= i < |ms| ==>
      (ms[i].phys == m.phys <==> (same && ms[i].virt == m.virt) || (!ms[i].owned && !m.owned && ms[i].phys == m.phys))
    ensures Pages(ms, mem[m.phys := data])
         == Touched(Pages(ms, mem), if same then Some(m.virt) else None, ViewOf(m, mem).home, data)
  {
    hide Pages;
    PagesAt(ms, mem);
    PagesAt(ms, mem[m.phys := data]);
  }

  lemma StoreSeenBy(slots: seq<Slot>, p: Frames, others: multiset<nat>, c: nat, k: nat, d: nat, i: nat)
    requires Inv(slots, p, others) && At(slots, c, k) && slots[c].mappings[k].flags.writable && At(slots, d, i)
    ensures slots[d].mappings[i].phys == slots[c].mappings[k].phys <==>
      (d == c && i == k) || (!slots[d].mappings[i].owned && !slots[c].mappings[k].owned &&
        slots[d].mappings[i].phys == slots[c].mappings[k].phys)
  {
    var m, n := slots[c].mappings[k], slots[d].mappings[i];
    if n.phys == m.phys && (d != c || i != k) {
      if m.owned && n.owned {
        TwoOwners(slots, c, k, d, i);
      } else if m.owned {
        OneOwner(slots, c, k);
      } else if n.owned {
        OneOwner(slots, d, i);
      }
    }
  }

  lemma {:induction false} PagesCongruent(a: seq<Mapping>, b: seq<Mapping>, mem: Memory, mem': Memory)
    requires |a| == |b|
    requires forall i :: 0 <= i < |a| ==> a[i].virt == b[i].virt && ViewOf(a[i], mem) == ViewOf(b[i], mem')
    ensures Pages(a, mem) == Pages(b, mem')
  {
    if a != [] {
      PagesCongruent(a[..|a| - 1], b[..|b| - 1], mem, mem');
    }
  }

  // ----- steps of the simple machine -----

  datatype Step =
    | New(c: nat)
    | Fork(source: nat, child: nat)
    | Grow(c: nat, page: nat, flags: Flags)
    | Bind(c: nat, page: nat, phys: nat, flags: Flags, data: Page)
    | Store(c: nat, address: nat, bytes: seq<bv8>)
    | Drop(c: nat, page: nat)
    | Discard(c: nat)

  const DYNAMIC_BASE := 0x40_0000_0000
  const NoSpace := Space(false, map[], 0)

  function Splice(page: Page, offset: nat, bytes: seq<bv8>): (r: Page)
    requires offset + |bytes| <= PAGE_SIZE
  {
    page[..offset] + bytes + page[offset + |bytes|..]
  }

  ghost function ApplyStore(a: seq<Space>, c: nat, address: nat, bytes: seq<bv8>): (b: seq<Space>)
    ensures |b| == |a|
  {
    if c < |a| && PageOf(address) in a[c].pages && address % PAGE_SIZE + |bytes| <= PAGE_SIZE then
      EagerStore(a, c, PageOf(address), Splice(a[c].pages[PageOf(address)].data, address % PAGE_SIZE, bytes))
    else a
  }

  /** The space a step acts on. */
  function Target(e: Step): nat {
    if e.Fork? then e.child else e.c
  }

  ghost function WithPage(s: Space, page: nat, v: View): Space {
    Space(s.used, s.pages[page := v], s.nextFree)
  }

  ghost function Apply(a: seq<Space>, e: Step): (b: seq<Space>)
    ensures |b| == |a|
  {
    if Target(e) >= |a| then a
    else if e.New? then a[e.c := Space(true, map[], DYNAMIC_BASE)]
    else if e.Fork? then (if e.source < |a| then a[e.child := a[e.source]] else a)
    else if e.Grow? then a[e.c := WithPage(a[e.c], e.page, View(e.flags, None, ZeroPage()))]
    else if e.Bind? then a[e.c := WithPage(a[e.c], e.page, View(e.flags, Some(e.phys), e.data))]
    else if e.Store? then ApplyStore(a, e.c, e.address, e.bytes)
    else if e.Drop? then a[e.c := Space(a[e.c].used, a[e.c].pages - {e.page}, a[e.c].nextFree)]
    else a[e.c := NoSpace]
  }

  ghost function ApplyAll(a: seq<Space>, log: seq<Step>): (b: seq<Space>)
    ensures |b| == |a|
  {
    if log == [] then a else Apply(ApplyAll(a, log[..|log| - 1]), log[|log| - 1])
  }

  lemma {:induction false} ApplyAllConcat(a: seq<Space>, x: seq<Step>, y: seq<Step>)
    ensures ApplyAll(a, x + y) == ApplyAll(ApplyAll(a, x), y)
  {
    if y == [] {
      assert x + y == x;
    } else {
      assert (x + y)[..|x + y| - 1] == x + y[..|y| - 1];
      ApplyAllConcat(a, x, y[..|y| - 1]);
    }
  }

  lemma ApplyOne(a: seq<Space>, log: seq<Step>, e: Step)
    ensures ApplyAll(a, log + [e]) == Apply(ApplyAll(a, log), e)
  {
    assert (log + [e])[..|log|] == log;
  }

  /** The bytes a log stores, in order. */
  ghost function Bytes(log: seq<Step>): seq<bv8> {
    if log == [] then [] else
      var e := log[|log| - 1];
      Bytes(log[..|log| - 1]) + if e.Store? then e.bytes else []
  }

  /** A step that writes at this address of space `c`, within a page, or brings the page
      of the address into space `mm`. */
  ghost predicate Appends(e: Step, c: nat, mm: int, at: nat) {
    || (e.Store? && e.c == c && e.address == at && 0 < |e.bytes| <= PAGE_SIZE - at % PAGE_SIZE)
    || (e.Grow? && e.c == mm && e.page == PageOf(at))
  }

  /** A log that writes one contiguous range of space `c` starting at `start`,
      with demand-zero pages appearing only in space `mm`, each for the next byte. */
  ghost predicate Contiguous(log: seq<Step>, c: nat, mm: int, start: nat) {
    log == [] ||
      (Contiguous(log[..|log| - 1], c, mm, start) && Appends(log[|log| - 1], c, mm, start + |Bytes(log[..|log| - 1])|))
  }

  lemma LastStep(log: seq<Step>, e: Step, c: nat, mm: int, start: nat)
    ensures Bytes(log + [e]) == Bytes(log) + if e.Store? then e.bytes else []
    ensures Contiguous(log + [e], c, mm, start) <==>
      Contiguous(log, c, mm, start) && Appends(e, c, mm, start + |Bytes(log)|)
  {
    assert (log + [e])[..|log + [e]| - 1] == log;
  }

  lemma PageArith(at: nat, n: nat, address: nat)
    requires at % PAGE_SIZE + n <= PAGE_SIZE
    ensures at <= address < at + n ==>
      PageOf(address) == PageOf(at) && address % PAGE_SIZE == at % PAGE_SIZE + (address - at)
    ensures PageOf(address) == PageOf(at) ==>
      (at <= address < at + n <==> at % PAGE_SIZE <= address % PAGE_SIZE < at % PAGE_SIZE + n)
  {
    if at <= address < at + n {
      var q, r := at / PAGE_SIZE, at % PAGE_SIZE;
      DivModUnique(address, PAGE_SIZE, q, r + (address - at));
    }
  }

  /** One store changes exactly the bytes it names. */
  lemma StoreByte(a: seq<Space>, c: nat, at: nat, bytes: seq<bv8>, d: nat, address: nat)
    requires c < |a| && d < |a| && PageOf(at) in a[c].pages && at % PAGE_SIZE + |bytes| <= PAGE_SIZE
    requires PageOf(address) in a[d].pages && a[d].pages[PageOf(address)].home == None
    ensures var b := ApplyStore(a, c, at, bytes);
      && PageOf(address) in b[d].pages && b[d].pages[PageOf(address)].home == None
      && b[d].pages[PageOf(address)].data[address % PAGE_SIZE] ==
         if d == c && at <= address < at + |bytes| then bytes[address - at]
         else a[d].pages[PageOf(address)].data[address % PAGE_SIZE]
  {
    PageArith(at, |bytes|, address);
    var now := Splice(a[c].pages[PageOf(at)].data, at % PAGE_SIZE, bytes);
    var home := a[c].pages[PageOf(at)].home;
    assert ApplyStore(a, c, at, bytes)[d].pages
        == Touched(a[d].pages, if d == c then Some(PageOf(at)) else None, home, now);
  }

  /** Every store of the log hits a page that is there, every demand-zero page
      appears where there was none. */
  ghost predicate Landed(a: seq<Space>, log: seq<Step>) {
    log == [] ||
      var e := log[|log| - 1];
      var b := ApplyAll(a, log[..|log| - 1]);
      && Landed(a, log[..|log| - 1]) && Target(e) < |a|
      && (e.Store? ==> PageOf(e.address) in b[e.c].pages)
      && (e.Grow? || e.Bind? ==> e.page !in b[e.c].pages)
      && (e.New? || e.Fork? ==> b[Target(e)].pages == map[])
  }

  lemma LandedOne(a: seq<Space>, log: seq<Step>, e: Step)
    requires Landed(a, log) && Target(e) < |a|
    requires e.Store? ==> PageOf(e.address) in ApplyAll(a, log)[e.c].pages
    requires e.Grow? || e.Bind? ==> e.page !in ApplyAll(a, log)[e.c].pages
    requires e.New? || e.Fork? ==> ApplyAll(a, log)[Target(e)].pages == map[]
    ensures Landed(a, log + [e])
  {
    assert (log + [e])[..|log|] == log;
  }

  /** The steps that may change a page a space already has. */
  predicate Hits(e: Step, d: nat, page: nat) {
    || (e.Store? && e.c == d && PageOf(e.address) == page)
    || (e.Drop? && e.c == d && e.page == page)
    || (e.Discard? && e.c == d)
  }

  /** Isolation: whatever all the spaces do, a private page changes only through
      a store of its own space to that page, until it is unmapped. */
  lemma {:induction false} Isolation(a: seq<Space>, log: seq<Step>, d: nat, page: nat)
    requires Landed(a, log) && d < |a| && page in a[d].pages && a[d].pages[page].home == None
    requires forall e :: e in log ==> !Hits(e, d, page)
    ensures page in ApplyAll(a, log)[d].pages && ApplyAll(a, log)[d].pages[page] == a[d].pages[page]
  {
    if log != [] {
      var n := |log| - 1;
      Isolation(a, log[..n], d, page);
      KeepsPage(ApplyAll(a, log[..n]), log[n], d, page);
    }
  }

  lemma KeepsPage(a: seq<Space>, e: Step, d: nat, page: nat)
    requires d < |a| && page in a[d].pages && a[d].pages[page].home == None && Target(e) < |a| && !Hits(e, d, page)
    requires e.Grow? || e.Bind? ==> e.page !in a[e.c].pages
    requires e.New? || e.Fork? ==> a[Target(e)].pages == map[]
    ensures page in Apply(a, e)[d].pages && Apply(a, e)[d].pages[page] == a[d].pages[page]
  {
    if e.Store? && PageOf(e.address) in a[e.c].pages && e.address % PAGE_SIZE + |e.bytes| <= PAGE_SIZE {
      var home := a[e.c].pages[PageOf(e.address)].home;
      var now := Splice(a[e.c].pages[PageOf(e.address)].data, e.address % PAGE_SIZE, e.bytes);
      assert Apply(a, e)[d].pages == Touched(a[d].pages, if d == e.c then Some(PageOf(e.address)) else None, home, now);
    }
  }

  /** What a contiguous log does to the bytes of a private page: the written
      range holds the written bytes, everything else what it held before. */
  lemma {:induction false} ContiguousEffect(a: seq<Space>, log: seq<Step>, c: nat, mm: int, start: nat, d: nat,
                                            address: nat)
    requires Contiguous(log, c, mm, start) && d < |a|
    requires Landed(a, log)
    requires PageOf(address) in a[d].pages && a[d].pages[PageOf(address)].home == None
    ensures PageOf(address) in ApplyAll(a, log)[d].pages
    ensures ApplyAll(a, log)[d].pages[PageOf(address)].home == None
    ensures ApplyAll(a, log)[d].pages[PageOf(address)].data[address % PAGE_SIZE]
         == if d == c && start <= address < start + |Bytes(log)| then Bytes(log)[address - start]
            else a[d].pages[PageOf(address)].data[address % PAGE_SIZE]
  {
    hide ApplyStore, EagerStore;
    if log != [] {
      var n := |log| - 1;
      ContiguousEffect(a, log[..n], c, mm, start, d, address);
      if log[n].Store? {
        StoreByte(ApplyAll(a, log[..n]), c, log[n].address, log[n].bytes, d, address);
      }
    }
  }

  // ----- transitions that keep the invariant -----

  lemma {:induction false} AllOwnedSame(a: seq<Slot>, b: seq<Slot>, f: nat)
    requires |a| == |b| && forall c :: 0 <= c < |a| ==> a[c].mappings == b[c].mappings
    ensures AllOwned(a, f) == AllOwned(b, f)
  {
    if a != [] { AllOwnedSame(a[..|a| - 1], b[..|b| - 1], f); }
  }

  lemma SameMappings(a: seq<Slot>, b: seq<Slot>, p: Frames, others: multiset<nat>)
    requires Inv(a, p, others) && SlotsOk(b, |p.refs|)
    requires forall c :: 0 <= c < |a| ==> a[c].mappings == b[c].mappings
    ensures Inv(b, p, others)
  {
    forall f | 0 <= f < |p.refs| ensures p.refs[f] == AllOwned(b, f) + others[f] { AllOwnedSame(a, b, f); }
    forall c, i | At(b, c, i) ensures Fits(b[c].mappings[i], p, others) { assert At(a, c, i); }
  }

  lemma Recount(slots: seq<Slot>, p: Frames, others: multiset<nat>, c: nat, s: Slot, q: Frames)
    requires Counted(slots, p, others) && c < |slots| && |q.refs| == |p.refs|
    requires forall f :: 0 <= f < |p.refs| ==>
      q.refs[f] == p.refs[f] + Owned(s.mappings, f) - Owned(slots[c].mappings, f)
    ensures Counted(slots[c := s], q, others)
  {
    forall f | 0 <= f < |q.refs|
      ensures q.refs[f] == AllOwned(slots[c := s], f) + others[f]
    {
      AllOwnedUpdate(slots, c, s, f);
    }
  }

  /** Replacing one slot keeps the invariant when the counts follow and every
      mapping fits the new counts. */
  lemma SlotUpdate(slots: seq<Slot>, p: Frames, others: multiset<nat>, c: nat, s: Slot, q: Frames)
    requires Inv(slots, p, others) && c < |slots| && SlotOk(s, |p.refs|) && Sound(q) && |q.refs| == |p.refs|
    requires forall f :: 0 <= f < |p.refs| ==>
      q.refs[f] == p.refs[f] + Owned(s.mappings, f) - Owned(slots[c].mappings, f)
    requires forall i :: 0 <= i < |s.mappings| ==> Fits(s.mappings[i], q, others)
    requires forall d, j :: At(slots, d, j) && d != c ==> Fits(slots[d].mappings[j], q, others)
    ensures Inv(slots[c := s], q, others)
  {
    hide Sound, SlotOk, Fits;
    Recount(slots, p, others, c, s, q);
    var next := slots[c := s];
    forall d, j | At(next, d, j) ensures Fits(next[d].mappings[j], q, others) {
      if d != c { assert At(slots, d, j); }
    }
  }

  lemma SpacesUpdate(slots: seq<Slot>, mem: Memory, c: nat, s: Slot)
    requires c < |slots|
    ensures Spaces(slots[c := s], mem) == Spaces(slots, mem)[c := Space(s.used, Pages(s.mappings, mem), s.nextFree)]
  {
  }

  /** Parent and child keep a shared page read-only and marked. */
  function Shared(m: Mapping): Mapping {
    if m.owned && (m.flags.writable || m.flags.cow)
    then m.(flags := m.flags.(writable := false, cow := true, present := true)) else m
  }

  /** The parent's list after its first `i` mappings have been shared. */
  function SharedUpTo(ms: seq<Mapping>, i: nat): (r: seq<Mapping>)
    requires i <= |ms|
    ensures |r| == |ms| && forall k :: 0 <= k < |ms| ==> r[k] == if k < i then Shared(ms[k]) else ms[k]
  {
    seq(|ms|, k requires 0 <= k < |ms| => if k < i then Shared(ms[k]) else ms[k])
  }

  lemma {:induction false} OwnedShared(ms: seq<Mapping>, ns: seq<Mapping>, f: nat)
    requires |ms| == |ns| && forall k :: 0 <= k < |ms| ==> ns[k].owned == ms[k].owned && ns[k].phys == ms[k].phys
    ensures Owned(ns, f) == Owned(ms, f)
  {
    if ms != [] { OwnedShared(ms[..|ms| - 1], ns[..|ns| - 1], f); }
  }

  ghost function Retained(p: Frames, m: Mapping): Frames {
    if m.owned && FrameOf(m) < |p.refs| then p.(refs := p.refs[FrameOf(m) := p.refs[FrameOf(m)] + 1]) else p
  }

  ghost function RetainedAll(p: Frames, ms: seq<Mapping>): Frames {
    if ms == [] then p else Retained(RetainedAll(p, ms[..|ms| - 1]), ms[|ms| - 1])
  }

  lemma {:induction false} RetainedAllFacts(p: Frames, ms: seq<Mapping>)
    requires forall i :: 0 <= i < |ms| && ms[i].owned ==> FrameOf(ms[i]) < |p.refs|
    ensures RetainedAll(p, ms).used == p.used && RetainedAll(p, ms).free == p.free
    ensures |RetainedAll(p, ms).refs| == |p.refs|
    ensures forall f :: 0 <= f < |p.refs| ==> RetainedAll(p, ms).refs[f] == p.refs[f] + Owned(ms, f)
  {
    if ms != [] { RetainedAllFacts(p, ms[..|ms| - 1]); }
  }

  /** Changing the permissions of one mapping: downwards always, upwards only
      for the sole reference. */
  lemma Reflag(slots: seq<Slot>, p: Frames, others: multiset<nat>, c: nat, k: nat, m: Mapping, s: Slot)
    requires Inv(slots, p, others) && At(slots, c, k) && m == slots[c].mappings[k].(flags := m.flags)
    requires s.mappings == slots[c].mappings[k := m] && SlotOk(s, |p.refs|)
    requires m.owned && m.flags.writable ==> p.refs[FrameOf(m)] == 1
    ensures Inv(slots[c := s], p, others)
  {
    hide Sound, SlotOk;
    forall f | 0 <= f < |p.refs| ensures Owned(s.mappings, f) == Owned(slots[c].mappings, f) {
      OwnedUpdate(slots[c].mappings, k, m, f);
    }
    forall i | 0 <= i < |s.mappings| ensures Fits(s.mappings[i], p, others) {
      assert At(slots, c, i) && Fits(slots[c].mappings[i], p, others);
    }
    SlotUpdate(slots, p, others, c, s, p);
  }

  /** The child's half of a fork step: a second owner of a protected frame. */
  lemma Join(slots: seq<Slot>, p: Frames, others: multiset<nat>, source: nat, i: nat, clone: nat, t: Slot)
    requires Inv(slots, p, others) && At(slots, source, i) && clone < |slots|
    requires slots[source].mappings[i].owned ==> !slots[source].mappings[i].flags.writable
    requires t.mappings == slots[clone].mappings + [slots[source].mappings[i]] && SlotOk(t, |p.refs|)
    requires Sound(Retained(p, slots[source].mappings[i]))
    ensures Inv(slots[clone := t], Retained(p, slots[source].mappings[i]), others)
  {
    hide Sound, SlotOk, Fits, Pages, CountClear;
    var m := slots[source].mappings[i];
    var q := Retained(p, m);
    assert Fits(m, p, others);
    forall f | 0 <= f < |p.refs|
      ensures q.refs[f] == p.refs[f] + Owned(t.mappings, f) - Owned(slots[clone].mappings, f)
    {
      OwnedAppend(slots[clone].mappings, m, f);
    }
    forall d, j | At(slots, d, j) ensures Fits(slots[d].mappings[j], q, others) {
      JoinFits(slots, p, others, source, i, d, j);
    }
    forall j | 0 <= j < |t.mappings| ensures Fits(t.mappings[j], q, others) {
      if j < |slots[clone].mappings| { assert At(slots, clone, j); }
    }
    SlotUpdate(slots, p, others, clone, t, q);
  }

  lemma JoinFits(slots: seq<Slot>, p: Frames, others: multiset<nat>, source: nat, i: nat, d: int, j: int)
    requires Inv(slots, p, others) && At(slots, source, i) && At(slots, d, j)
    requires slots[source].mappings[i].owned ==> !slots[source].mappings[i].flags.writable
    ensures Fits(slots[d].mappings[j], Retained(p, slots[source].mappings[i]), others)
  {
    var m, n := slots[source].mappings[i], slots[d].mappings[j];
    assert Fits(m, p, others) && Fits(n, p, others);
    if m.owned && FrameOf(n) == FrameOf(m) {
      OneOwner(slots, source, i);
      if n.owned && n.flags.writable { TwoOwners(slots, source, i, d, j); }
    }
  }

  /** No mapping names a frame that nobody references. */
  lemma NotFreeFrame(slots: seq<Slot>, p: Frames, others: multiset<nat>, d: nat, j: nat, f: nat)
    requires Inv(slots, p, others) && At(slots, d, j) && f < |p.refs| && p.refs[f] == 0
    ensures FrameOf(slots[d].mappings[j]) != f
    ensures Fits(slots[d].mappings[j], p, others)
  {
    assert Fits(slots[d].mappings[j], p, others);
    if slots[d].mappings[j].owned { OneOwner(slots, d, j); }
  }

  ghost function Taken(p: Frames, f: nat): Frames {
    if f < |p.used| && f < |p.refs| && p.free > 0 then Frames(p.used[f := true], p.refs[f := 1], p.free - 1) else p
  }

  /** A freshly allocated page belongs to its mapping alone. */
  lemma Append(slots: seq<Slot>, p: Frames, others: multiset<nat>, c: nat, m: Mapping, s: Slot)
    requires Inv(slots, p, others) && c < |slots| && m.owned && p.free > 0
    requires s.mappings == slots[c].mappings + [m] && SlotOk(s, |p.refs|)
    requires FrameOf(m) < |p.used| && !p.used[FrameOf(m)] && Sound(Taken(p, FrameOf(m)))
    ensures Inv(slots[c := s], Taken(p, FrameOf(m)), others)
  {
    hide SlotOk, CountClear;
    var q := Taken(p, FrameOf(m));
    assert p.refs[FrameOf(m)] == 0;
    forall f | 0 <= f < |p.refs| ensures q.refs[f] == p.refs[f] + Owned(s.mappings, f) - Owned(slots[c].mappings, f) {
      OwnedAppend(slots[c].mappings, m, f);
    }
    forall d, j | At(slots, d, j) ensures Fits(slots[d].mappings[j], q, others) {
      NotFreeFrame(slots, p, others, d, j, FrameOf(m));
    }
    forall j | 0 <= j < |s.mappings| ensures Fits(s.mappings[j], q, others) {
      if j < |slots[c].mappings| { assert At(slots, c, j); }
    }
    SlotUpdate(slots, p, others, c, s, q);
  }

  /** Writing a frame that nobody references changes no space. */
  lemma Unseen(slots: seq<Slot>, p: Frames, others: multiset<nat>, mem: Memory, phys: nat, data: Page)
    requires Inv(slots, p, others) && phys / PAGE_SIZE < |p.refs| && p.refs[phys / PAGE_SIZE] == 0
    ensures Spaces(slots, mem[phys := data]) == Spaces(slots, mem)
  {
    forall d | 0 <= d < |slots| ensures Pages(slots[d].mappings, mem[phys := data]) == Pages(slots[d].mappings, mem) {
      forall j | 0 <= j < |slots[d].mappings| ensures slots[d].mappings[j].phys != phys {
        NotFreeFrame(slots, p, others, d, j, phys / PAGE_SIZE);
      }
      PagesCongruent(slots[d].mappings, slots[d].mappings, mem, mem[phys := data]);
    }
  }

  lemma PagesAppend(ms: seq<Mapping>, m: Mapping, mem: Memory)
    ensures Pages(ms + [m], mem) == Pages(ms, mem)[m.virt := ViewOf(m, mem)]
  {
    assert (ms + [m])[..|ms|] == ms;
  }

  /** Mapping a frame that somebody else holds. */
  lemma AppendForeign(slots: seq<Slot>, p: Frames, others: multiset<nat>, c: nat, m: Mapping, s: Slot)
    requires Inv(slots, p, others) && c < |slots| && !m.owned && Fits(m, p, others)
    requires s.mappings == slots[c].mappings + [m] && SlotOk(s, |p.refs|)
    ensures Inv(slots[c := s], p, others)
  {
    hide Sound, SlotOk, Fits, Pages, CountClear;
    forall f | 0 <= f < |p.refs| ensures Owned(s.mappings, f) == Owned(slots[c].mappings, f) {
      OwnedAppend(slots[c].mappings, m, f);
    }
    forall j | 0 <= j < |s.mappings| ensures Fits(s.mappings[j], p, others) {
      if j < |slots[c].mappings| { assert At(slots, c, j); }
    }
    SlotUpdate(slots, p, others, c, s, p);
  }

  /** Losing references keeps every surviving mapping fitting. */
  lemma Shrink(slots: seq<Slot>, p: Frames, others: multiset<nat>, c: nat, s: Slot, q: Frames)
    requires Inv(slots, p, others) && c < |slots| && SlotOk(s, |p.refs|) && Sound(q) && |q.refs| == |p.refs|
    requires forall f :: 0 <= f < |p.refs| ==>
      q.refs[f] == p.refs[f] + Owned(s.mappings, f) - Owned(slots[c].mappings, f)
    requires forall f :: 0 <= f < |p.refs| ==> q.refs[f] <= p.refs[f]
    requires forall i :: 0 <= i < |s.mappings| ==> s.mappings[i] in slots[c].mappings
    ensures Inv(slots[c := s], q, others)
  {
    hide Sound, SlotOk, Fits;
    Recount(slots, p, others, c, s, q);
    var next := slots[c := s];
    forall d, j | At(next, d, j) ensures Fits(next[d].mappings[j], q, others) {
      var m := next[d].mappings[j];
      assert m in slots[d].mappings;
      var i :| 0 <= i < |slots[d].mappings| && slots[d].mappings[i] == m;
      assert At(slots, d, i);
      ShrinkFits(next, p, q, others, d, j);
    }
  }

  lemma ShrinkFits(next: seq<Slot>, p: Frames, q: Frames, others: multiset<nat>, d: nat, j: nat)
    requires At(next, d, j) && Fits(next[d].mappings[j], p, others) && Counted(next, q, others)
    requires |q.refs| == |p.refs| && forall f :: 0 <= f < |p.refs| ==> q.refs[f] <= p.refs[f]
    ensures Fits(next[d].mappings[j], q, others)
  {
    if next[d].mappings[j].owned { OneOwner(next, d, j); }
  }

  /** Dropping one of several references, or the last one. */
  lemma ReleasedFacts(p: Frames, phys: nat)
    requires Sound(p) && phys % PAGE_SIZE == 0 && 0 < phys / PAGE_SIZE < |p.refs| && p.refs[phys / PAGE_SIZE] > 0
    ensures Sound(Released(p, phys))
    ensures Released(p, phys).refs == p.refs[phys / PAGE_SIZE := p.refs[phys / PAGE_SIZE] - 1]
    ensures p.refs[phys / PAGE_SIZE] > 1 ==> Released(p, phys) == p.(refs := Released(p, phys).refs)
  {
    CountClearUpdate(p.used, phys / PAGE_SIZE, false);
  }

  /** Dropping the references of a whole list of mappings. */
  ghost function ReleasedAll(p: Frames, ms: seq<Mapping>): (q: Frames)
    requires |p.refs| == |p.used|
    ensures |q.refs| == |q.used| == |p.used|
  {
    if ms == [] then p else
      var q := ReleasedAll(p, ms[..|ms| - 1]);
      if ms[|ms| - 1].owned then Released(q, ms[|ms| - 1].phys) else q
  }

  ghost predicate Covers(p: Frames, ms: seq<Mapping>) {
    && (forall f :: 0 <= f < |p.refs| ==> p.refs[f] >= Owned(ms, f))
    && (forall i :: 0 <= i < |ms| ==> MappingOk(ms[i], |p.refs|))
  }

  lemma {:induction false} ReleasedAllFacts(p: Frames, ms: seq<Mapping>)
    requires Sound(p) && Covers(p, ms)
    ensures Sound(ReleasedAll(p, ms))
    ensures forall f :: 0 <= f < |p.refs| ==> ReleasedAll(p, ms).refs[f] == p.refs[f] - Owned(ms, f)
    ensures forall f :: 0 <= f < |p.refs| && p.refs[f] > Owned(ms, f) ==> ReleasedAll(p, ms).used[f] == p.used[f]
    ensures forall f :: 0 <= f < |p.refs| && p.refs[f] == 0 ==> ReleasedAll(p, ms).used[f] == p.used[f]
  {
    if ms != [] {
      var n := |ms| - 1;
      assert Covers(p, ms[..n]) by {
        assert forall i :: 0 <= i < n ==> ms[..n][i] == ms[i];
        forall f | 0 <= f < |p.refs| ensures p.refs[f] >= Owned(ms[..n], f) { assert p.refs[f] >= Owned(ms, f); }
      }
      ReleasedAllFacts(p, ms[..n]);
      if ms[n].owned {
        var q := ReleasedAll(p, ms[..n]);
        assert p.refs[FrameOf(ms[n])] >= Owned(ms, FrameOf(ms[n]));
        ReleasedFacts(q, ms[n].phys);
      }
    }
  }

  /** Splitting a shared page: the writer moves to a private copy. */
  lemma Replace(slots: seq<Slot>, p: Frames, others: multiset<nat>, c: nat, k: nat, m: Mapping, s: Slot)
    requires Inv(slots, p, others) && At(slots, c, k) && slots[c].mappings[k].owned && m.owned
    requires s.mappings == slots[c].mappings[k := m] && SlotOk(s, |p.refs|)
    requires FrameOf(m) < |p.used| && !p.used[FrameOf(m)] && p.free > 0 && Sound(Taken(p, FrameOf(m)))
    requires p.refs[FrameOf(slots[c].mappings[k])] > 1
    ensures Inv(slots[c := s], Released(Taken(p, FrameOf(m)), slots[c].mappings[k].phys), others)
  {
    hide CountClear, Pages;
    var o := slots[c].mappings[k];
    var q := Taken(p, FrameOf(m));
    assert p.refs[FrameOf(m)] == 0;
    ReleasedFacts(q, o.phys);
    var r := Released(q, o.phys);
    forall f | 0 <= f < |p.refs| ensures r.refs[f] == p.refs[f] + Owned(s.mappings, f) - Owned(slots[c].mappings, f) {
      OwnedUpdate(slots[c].mappings, k, m, f);
    }
    forall d, j | At(slots, d, j) && (d != c || j != k) ensures Fits(slots[d].mappings[j], r, others) {
      NotFreeFrame(slots, p, others, d, j, FrameOf(m));
      if FrameOf(slots[d].mappings[j]) == FrameOf(o) && !slots[d].mappings[j].owned { OneOwner(slots, c, k); }
    }
    forall j | 0 <= j < |s.mappings| ensures Fits(s.mappings[j], r, others) {
      if j != k { assert At(slots, c, j); }
    }
    SlotUpdate(slots, p, others, c, s, r);
  }

  /** A fork that is undone leaves the allocator as it was. */
  lemma RetainRelease(p: Frames, ms: seq<Mapping>, ns: seq<Mapping>)
    requires Sound(p) && Covers(p, ms) && Sound(RetainedAll(p, ms)) && |ns| == |ms|
    requires forall i :: 0 <= i < |ms| ==> ns[i].owned == ms[i].owned && ns[i].phys == ms[i].phys && MappingOk(ns[i],
                                                                                                               |p.refs|)
    ensures Covers(RetainedAll(p, ms), ns)
    ensures ReleasedAll(RetainedAll(p, ms), ns) == p
  {
    hide CountClear, RetainedAll, ReleasedAll, Owned, MappingOk;
    var q := RetainedAll(p, ms);
    assert forall i :: 0 <= i < |ms| && ms[i].owned ==> FrameOf(ms[i]) < |p.refs| by { OwnersInRange(ms, |p.refs|); }
    RetainedAllFacts(p, ms);
    forall f | 0 <= f < |q.refs|
      ensures q.refs[f] == p.refs[f] + Owned(ns, f) && p.refs[f] >= Owned(ns, f)
    {
      OwnedShared(ms, ns, f);
    }
    ReleasedAllFacts(q, ns);
    RestoredView(p, q, ReleasedAll(q, ns), ns);
  }

  lemma OwnersInRange(ms: seq<Mapping>, limit: nat)
    requires forall i :: 0 <= i < |ms| ==> MappingOk(ms[i], limit)
    ensures forall i :: 0 <= i < |ms| && ms[i].owned ==> FrameOf(ms[i]) < limit
  {
  }

  lemma RestoredView(p: Frames, q: Frames, r: Frames, ns: seq<Mapping>)
    requires Sound(p) && Sound(q) && Sound(r) && |q.refs| == |p.refs| == |r.refs| && q.used == p.used
    requires forall f :: 0 <= f < |q.refs| ==> q.refs[f] == p.refs[f] + Owned(ns, f) && p.refs[f] >= Owned(ns, f)
    requires forall f :: 0 <= f < |q.refs| ==> r.refs[f] == q.refs[f] - Owned(ns, f)
    requires forall f :: 0 <= f < |q.refs| && q.refs[f] > Owned(ns, f) ==> r.used[f] == q.used[f]
    requires forall f :: 0 <= f < |q.refs| && q.refs[f] == 0 ==> r.used[f] == q.used[f]
    ensures r == p
  {
    hide CountClear, Owned;
    assert r.refs == p.refs;
    forall f | 0 <= f < |p.used| ensures r.used[f] == p.used[f] { assert q.refs[f] == p.refs[f] + Owned(ns, f); }
    assert r.used == p.used;
  }
}
