/** Four-level page tables as a radix tree in memory, and what the processor's
    walk reads from them ("4-level paging", section 4.5 of the Intel 64 and
    IA-32 Architectures Software Developer's Manual, volume 3A). */
module Radix {
  const ENTRIES := 512
  /** Page numbers have forty bits: an entry keeps them in bits 12 to 51. */
  const FRAMES := 0x100_0000_0000
  /** Bits 52 to 63 of an entry; the topmost one is no-execute. */
  const HIGHS := 4096

  datatype Option<T> = None | Some(value: T)

  /** One 64-bit entry, field by field: flag bits 0, 1, 2, 4 and 7, the frame in
      bits 12 to 51, bits 52 to 63, and the remaining flag bits. */
  datatype Entry = Entry(present: bool, write: bool, user: bool, nocache: bool, huge: bool, frame: nat, high: nat,
                         rest: nat)

  type Memory = map<nat, seq<Entry>>
  type Path = seq<nat>

  /** Where a page is, and the attributes of the entry that says so. */
  datatype Leaf = Leaf(frame: nat, write: bool, user: bool, nocache: bool, pat: bool, high: nat, rest: nat)

  function Zero(): Entry { Entry(false, false, false, false, false, 0, 0, 0) }

  function ZeroTable(): (t: seq<Entry>)
    ensures |t| == ENTRIES && forall i :: 0 <= i < ENTRIES ==> t[i] == Zero()
  {
    seq(ENTRIES, _ => Zero())
  }

  predicate IsTable(e: Entry) { e.present && !e.huge }

  function LeafAt(e: Entry, frame: nat, pat: bool): Leaf {
    Leaf(frame, e.write, e.user, e.nocache, pat, e.high, e.rest)
  }

  // ----- the walk -----

  /** The indices of a page, from the root down. */
  function PathOf(virt: nat): Path {
    [virt / 0x80_0000_0000 % ENTRIES, virt / 0x4000_0000 % ENTRIES, virt / 0x20_0000 % ENTRIES, virt / 0x1000 % ENTRIES]
  }

  ghost predicate Indices(w: Path) {
    forall i :: 0 <= i < |w| ==> w[i] < ENTRIES
  }

  ghost predicate IsPage(w: Path) { |w| == 4 && Indices(w) }

  /** What an entry leads to, given the indices still to be used. The memory-type bit is bit 12 of a large page and
      bit 7, where a large page has its size flag, of a small one. */
  ghost function Through(mem: Memory, e: Entry, w: Path): Option<Leaf>
    decreases |w|, 1
  {
    if !e.present then None
    else if |w| == 0 then Some(LeafAt(e, e.frame, e.huge))
    else if e.huge then
      (if |w| == 1 then Some(LeafAt(e, e.frame / ENTRIES * ENTRIES + w[0], e.frame % 2 == 1))
       else if |w| == 2 then Some(LeafAt(e, e.frame / 0x40000 * 0x40000 + w[0] * ENTRIES + w[1], e.frame % 2 == 1))
       else None)
    else Walk(mem, e.frame, w)
  }

  ghost function Walk(mem: Memory, t: nat, w: Path): Option<Leaf>
    decreases |w|, 0
  {
    if |w| > 0 && t in mem && w[0] < |mem[t]| then Through(mem, mem[t][w[0]], w[1..]) else None
  }

  /** Two addresses share their indices exactly when they lie in the same page
      of the 48-bit space. */
  lemma SamePath(a: nat, b: nat)
    ensures IsPage(PathOf(a))
    ensures PathOf(a) == PathOf(b) <==> a / 0x1000 % 0x10_0000_0000 == b / 0x1000 % 0x10_0000_0000
  {
    Digits(a);
    Digits(b);
    OneSpelling(PathOf(a), PathOf(b));
  }

  lemma OneSpelling(x: Path, y: Path)
    requires IsPage(x) && IsPage(y)
    ensures x == y <==>
      ((x[0] * 512 + x[1]) * 512 + x[2]) * 512 + x[3] == ((y[0] * 512 + y[1]) * 512 + y[2]) * 512 + y[3]
  {
    if x[0] == y[0] && x[1] == y[1] && x[2] == y[2] && x[3] == y[3] { assert x == y; }
  }

  lemma Digits(a: nat)
    ensures a / 0x1000 % 0x10_0000_0000 ==
      ((PathOf(a)[0] * 512 + PathOf(a)[1]) * 512 + PathOf(a)[2]) * 512 + PathOf(a)[3]
  {
    var p := a / 0x1000;
    assert a / 0x20_0000 == p / 512 && a / 0x4000_0000 == p / 512 / 512 && a / 0x80_0000_0000 == p / 512 / 512 / 512;
    LowDigit(p);
    MiddleDigit(p / 512);
    HighDigit(p / 512 / 512);
  }

  lemma LowDigit(p: nat)
    ensures p % 0x10_0000_0000 == p / 512 % 0x800_0000 * 512 + p % 512
  {
  }

  lemma MiddleDigit(p: nat)
    ensures p % 0x800_0000 == p / 512 % 0x4_0000 * 512 + p % 512
  {
  }

  lemma HighDigit(p: nat)
    ensures p % 0x4_0000 == p / 512 % 512 * 512 + p % 512
  {
  }

  // ----- the tree -----

  /** The tables below a position of the tree, each under the indices that lead to it. */
  type Tables = map<Path, nat>

  ghost predicate IsPrefix(p: Path, q: Path) { |p| <= |q| && q[..|p|] == p }

  ghost predicate Shaped(base: Path, tables: Tables) {
    && base in tables && |base| <= 3
    && (forall q :: q in tables ==> Place(base, tables, q))
    && (forall q, r :: q in tables && r in tables && tables[q] == tables[r] ==> q == r)
  }

  ghost predicate Place(base: Path, tables: Tables, q: Path) {
    IsPrefix(base, q) && |q| <= 3 && Indices(q) && (q == base || q[..|q| - 1] in tables)
  }

  /** An entry is a table entry exactly when the tree has a table there. */
  ghost predicate Link(mem: Memory, tables: Tables, q: Path, i: nat)
    requires q in tables && tables[q] in mem && i < |mem[tables[q]]|
  {
    var e := mem[tables[q]][i];
    (IsTable(e) <==> q + [i] in tables) && (IsTable(e) ==> tables[q + [i]] == e.frame)
  }

  ghost predicate Linked(mem: Memory, tables: Tables, q: Path)
    requires q in tables
  {
    && tables[q] in mem && |mem[tables[q]]| == ENTRIES
    && (|q| < 3 ==> forall i :: 0 <= i < ENTRIES ==> Link(mem, tables, q, i))
  }

  ghost predicate Tree(mem: Memory, base: Path, tables: Tables) {
    Shaped(base, tables) && forall q :: q in tables ==> Linked(mem, tables, q)
  }

  /** Two memories that differ, among the tables of a tree, at one entry at most. */
  ghost predicate Beside(mem: Memory, now: Memory, tables: Tables, p: Path, i: nat) {
    forall q :: q in tables ==>
      && tables[q] in mem && tables[q] in now && |now[tables[q]]| == |mem[tables[q]]| == ENTRIES
      && forall j :: 0 <= j < ENTRIES && !(q == p && j == i) ==> now[tables[q]][j] == mem[tables[q]][j]
  }

  lemma Depth(base: Path, tables: Tables, q: Path)
    requires Shaped(base, tables) && q in tables
    ensures |q| <= 3 && Indices(q)
  {
    assert Place(base, tables, q);
  }

  /** Rewriting one entry only matters to the pages below it. */
  lemma {:induction false} Swap(mem: Memory, now: Memory, base: Path, tables: Tables, p: Path, i: nat, q: Path, w: Path)
    requires Tree(mem, base, tables) && Beside(mem, now, tables, p, i) && p in tables && i < ENTRIES
    requires q in tables && |q| + |w| == 4 && Indices(w)
    requires IsPrefix(p + [i], q + w) ==>
      Through(now, now[tables[p]][i], (q + w)[|p| + 1..]) == Through(mem, mem[tables[p]][i], (q + w)[|p| + 1..])
    ensures Walk(now, tables[q], w) == Walk(mem, tables[q], w)
    decreases |w|
  {
    hide Shaped;
    Depth(base, tables, q);
    assert Linked(mem, tables, q);
    var e := mem[tables[q]][w[0]];
    if q == p && w[0] == i {
      assert (q + w)[..|p| + 1] == p + [i];
      assert (q + w)[|p| + 1..] == w[1..];
    } else if IsTable(e) && |w| > 1 {
      assert Link(mem, tables, q, w[0]);
      assert (q + [w[0]]) + w[1..] == q + w;
      Swap(mem, now, base, tables, p, i, q + [w[0]], w[1..]);
    }
  }

  /** The translation of a page goes through the entry of each table on its way. */
  lemma {:induction false} WalkDown(mem: Memory, base: Path, tables: Tables, w: Path, n: nat, m: nat)
    requires Tree(mem, base, tables) && |w| == 4 && Indices(w) && |base| <= n <= m <= 3 && w[..n] in tables
    requires w[..m] in tables
    ensures tables[w[..m]] in mem && |mem[tables[w[..m]]]| == ENTRIES
    ensures Walk(mem, tables[w[..n]], w[n..]) == Through(mem, mem[tables[w[..m]]][w[m]], w[m + 1..])
    decreases m - n
  {
    hide Shaped;
    assert Linked(mem, tables, w[..n]) && Linked(mem, tables, w[..m]);
    assert w[n..][0] == w[n] && w[n..][1..] == w[n + 1..];
    if n < m {
      Prefixes(base, tables, w[..m], n + 1);
      assert w[..m][..n + 1] == w[..n + 1] == w[..n] + [w[n]];
      assert Link(mem, tables, w[..n], w[n]);
      WalkDown(mem, base, tables, w, n + 1, m);
    }
  }

  /** Memories that agree on a tree translate alike below it. */
  lemma {:induction false} Agree(mem: Memory, now: Memory, base: Path, tables: Tables, q: Path, w: Path)
    requires Tree(mem, base, tables) && q in tables && |q| + |w| == 4 && Indices(w)
    requires forall r :: r in tables ==> tables[r] in now && tables[r] in mem && now[tables[r]] == mem[tables[r]]
    ensures Walk(now, tables[q], w) == Walk(mem, tables[q], w)
    decreases |w|
  {
    hide Shaped;
    Depth(base, tables, q);
    assert Linked(mem, tables, q);
    var e := mem[tables[q]][w[0]];
    if IsTable(e) && |w| > 1 {
      assert Link(mem, tables, q, w[0]);
      Agree(mem, now, base, tables, q + [w[0]], w[1..]);
    }
  }

  lemma TreeAgree(mem: Memory, now: Memory, base: Path, tables: Tables)
    requires Tree(mem, base, tables)
    requires forall r :: r in tables ==> tables[r] in now && tables[r] in mem && now[tables[r]] == mem[tables[r]]
    ensures Tree(now, base, tables)
  {
    hide Shaped;
    forall q | q in tables ensures Linked(now, tables, q) {
      assert Linked(mem, tables, q);
      if |q| < 3 {
        forall i | 0 <= i < ENTRIES ensures Link(now, tables, q, i) { assert Link(mem, tables, q, i); }
      }
    }
  }

  /** Flags of one entry change, its frame and kind do not. */
  lemma TreeKeep(mem: Memory, now: Memory, base: Path, tables: Tables, p: Path, i: nat)
    requires Tree(mem, base, tables) && Beside(mem, now, tables, p, i) && p in tables && i < ENTRIES
    requires |p| == 3 || IsTable(now[tables[p]][i]) == IsTable(mem[tables[p]][i])
    requires |p| == 3 || !IsTable(now[tables[p]][i]) || now[tables[p]][i].frame == mem[tables[p]][i].frame
    ensures Tree(now, base, tables)
  {
    hide Shaped;
    forall q | q in tables ensures Linked(now, tables, q) {
      assert Linked(mem, tables, q);
      if |q| < 3 {
        forall j | 0 <= j < ENTRIES ensures Link(now, tables, q, j) { assert Link(mem, tables, q, j); }
      }
    }
  }

  /** A fresh table below an entry that led to none. */
  lemma TreeAttach(mem: Memory, now: Memory, base: Path, tables: Tables, p: Path, i: nat, z: nat)
    requires Tree(mem, base, tables) && Beside(mem, now, tables, p, i) && p in tables && i < ENTRIES && |p| < 3
    requires !IsTable(mem[tables[p]][i]) && IsTable(now[tables[p]][i]) && now[tables[p]][i].frame == z
    requires z !in tables.Values && z in now && |now[z]| == ENTRIES
    requires |p| == 2 || forall j :: 0 <= j < ENTRIES ==> !now[z][j].present
    ensures p + [i] !in tables && Tree(now, base, tables[p + [i] := z])
  {
    var more := tables[p + [i] := z];
    assert Linked(mem, tables, p) && Link(mem, tables, p, i);
    AttachShape(base, tables, p, i, z);
    hide Shaped;
    forall q | q in more ensures Linked(now, more, q) {
      if q != p + [i] {
        assert Linked(mem, tables, q);
        if |q| < 3 {
          forall j | 0 <= j < ENTRIES ensures Link(now, more, q, j) {
            assert Link(mem, tables, q, j);
            if q + [j] == p + [i] { assert q == p by { assert (q + [j])[..|q|] == q && (p + [i])[..|p|] == p; } }
          }
        }
      } else if |q| < 3 {
        NoGrandchild(base, tables, p, i);
        forall j | 0 <= j < ENTRIES ensures Link(now, more, q, j) { assert |q + [j]| == |q| + 1; }
      }
    }
  }

  lemma AttachShape(base: Path, tables: Tables, p: Path, i: nat, z: nat)
    requires Shaped(base, tables) && p in tables && i < ENTRIES && |p| < 3 && z !in tables.Values
    ensures Shaped(base, tables[p + [i] := z])
  {
    var more := tables[p + [i] := z];
    forall q | q in more ensures Place(base, more, q) {
      assert Place(base, tables, p);
      if q == p + [i] {
        assert q[..|q| - 1] == p && q[..|base|] == p[..|base|];
      } else {
        assert Place(base, tables, q);
      }
    }
  }

  lemma NoGrandchild(base: Path, tables: Tables, p: Path, i: nat)
    requires Shaped(base, tables) && p in tables && p + [i] !in tables
    ensures forall j :: p + [i] + [j] !in tables
  {
    forall j ensures p + [i] + [j] !in tables {
      var q := p + [i] + [j];
      assert q[..|q| - 1] == p + [i];
      assert Place(base, tables, p) && (q in tables ==> Place(base, tables, q));
    }
  }

  lemma {:induction false} Prefixes(base: Path, tables: Tables, p: Path, n: nat)
    requires Shaped(base, tables) && p in tables && |base| <= n <= |p|
    ensures p[..n] in tables
    decreases |p|
  {
    assert Place(base, tables, p);
    if n < |p| {
      assert base != p;
      Prefixes(base, tables, p[..|p| - 1], n);
      assert p[..|p| - 1][..n] == p[..n];
    } else {
      assert p[..n] == p;
    }
  }

  // ----- whole subtrees -----

  /** The tables at or below a position. */
  ghost function Under(tables: Tables, p: Path): set<nat> {
    set q | q in tables && IsPrefix(p, q) :: tables[q]
  }

  /** Those below one of the first entries of the table at a position. */
  ghost function UnderFirst(tables: Tables, p: Path, n: nat): set<nat> {
    set q | q in tables && IsPrefix(p, q) && |q| > |p| && q[|p|] < n :: tables[q]
  }

  lemma UnderNext(base: Path, tables: Tables, p: Path, n: nat)
    requires Shaped(base, tables) && p in tables
    ensures UnderFirst(tables, p, n + 1) == UnderFirst(tables, p, n) + Under(tables, p + [n])
    ensures UnderFirst(tables, p, n) !! Under(tables, p + [n])
    ensures Under(tables, p + [n]) <= Under(tables, p)
    ensures p + [n] !in tables ==> Under(tables, p + [n]) == {}
  {
    forall q | q in tables
      ensures IsPrefix(p + [n], q) <==> IsPrefix(p, q) && |q| > |p| && q[|p|] == n
      ensures IsPrefix(p + [n], q) ==> p + [n] in tables
    {
      if |q| > |p| { assert q[..|p| + 1] == q[..|p|] + [q[|p|]]; }
      if IsPrefix(p + [n], q) {
        assert Place(base, tables, p) && IsPrefix(base, p);
        assert Place(base, tables, q);
        Prefixes(base, tables, q, |p| + 1);
      }
    }
  }

  lemma UnderAll(base: Path, tables: Tables, p: Path)
    requires Shaped(base, tables) && p in tables
    ensures Under(tables, p) == UnderFirst(tables, p, ENTRIES) + {tables[p]}
    ensures tables[p] !in UnderFirst(tables, p, ENTRIES)
    ensures |p| == 3 ==> UnderFirst(tables, p, ENTRIES) == {}
    ensures UnderFirst(tables, p, 0) == {}
  {
    forall q | q in tables && IsPrefix(p, q) ensures q == p || (|q| > |p| && q[|p|] < ENTRIES) {
      assert Place(base, tables, q);
      if |q| == |p| { assert q == q[..|p|]; }
    }
    forall q | q in tables ensures |q| <= 3 { assert Place(base, tables, q); }
    assert IsPrefix(p, p);
  }

  /** A copied subtree hangs below an entry that led nowhere. */
  lemma Graft(mem: Memory, now: Memory, p: Path, tables: Tables, i: nat, child: Tables)
    requires Tree(mem, p, tables) && i < ENTRIES && |p| < 3 && Tree(mem, p + [i], child)
    requires tables.Values !! child.Values && Beside(mem, now, tables, p, i)
    requires forall q :: q in child ==> child[q] in mem && child[q] in now && now[child[q]] == mem[child[q]]
    requires !IsTable(mem[tables[p]][i]) && IsTable(now[tables[p]][i]) && now[tables[p]][i].frame == child[p + [i]]
    ensures tables.Keys !! child.Keys && Tree(now, p, tables + child)
  {
    Apart(mem, p, tables, i, child);
    GraftShape(p, tables, i, child);
    var all := tables + child;
    hide Shaped;
    forall q | q in all ensures Linked(now, all, q) {
      if q in child { GraftChild(mem, now, p, tables, i, child, q); } else {
        GraftOld(mem, now, p, tables, i, child, q);
      }
    }
  }

  lemma Apart(mem: Memory, p: Path, tables: Tables, i: nat, child: Tables)
    requires Tree(mem, p, tables) && i < ENTRIES && |p| < 3 && Shaped(p + [i], child) && Linked(mem, tables, p)
    requires !IsTable(mem[tables[p]][i])
    ensures forall q :: q in child ==> q !in tables
    ensures forall q :: q in tables && |q| < 3 ==> forall j :: 0 <= j < ENTRIES && q + [j] in child ==> q == p && j == i
  {
    assert Link(mem, tables, p, i);
    forall q | q in child ensures q !in tables {
      assert Place(p + [i], child, q);
      if q in tables {
        Prefixes(p, tables, q, |p| + 1);
        assert false;
      }
    }
    forall q, j | q in tables && |q| < 3 && 0 <= j < ENTRIES && q + [j] in child ensures q == p && j == i {
      assert (q + [j])[..|q + [j]| - 1] == q;
      assert Place(p + [i], child, q + [j]) && Place(p, tables, q);
      assert (q + [j])[..|q|] == q && (p + [i])[..|p|] == p;
    }
  }

  lemma GraftShape(p: Path, tables: Tables, i: nat, child: Tables)
    requires Shaped(p, tables) && Shaped(p + [i], child) && i < ENTRIES && |p| < 3
    requires tables.Values !! child.Values && forall q :: q in child ==> q !in tables
    ensures Shaped(p, tables + child)
  {
    var all := tables + child;
    forall q | q in all ensures Place(p, all, q) {
      if q in child {
        assert Place(p + [i], child, q);
        assert q[..|p|] == q[..|p| + 1][..|p|] == p;
        if q == p + [i] { assert q[..|q| - 1] == p; }
      } else {
        assert Place(p, tables, q);
      }
    }
    forall q, r | q in all && r in all && all[q] == all[r] ensures q == r {
      assert q in child ==> all[q] in child.Values;
      assert q !in child ==> all[q] in tables.Values;
      assert r in child ==> all[r] in child.Values;
      assert r !in child ==> all[r] in tables.Values;
    }
  }

  lemma GraftChild(mem: Memory, now: Memory, p: Path, tables: Tables, i: nat, child: Tables, q: Path)
    requires Tree(mem, p + [i], child) && q in child && Shaped(p, tables) && |p| < 3
    requires child[q] in mem && child[q] in now && now[child[q]] == mem[child[q]]
    requires forall r :: r in child ==> r !in tables
    ensures Linked(now, tables + child, q)
  {
    var all := tables + child;
    assert Linked(mem, child, q) && Place(p + [i], child, q);
    if |q| < 3 {
      forall j | 0 <= j < ENTRIES ensures Link(now, all, q, j) {
        assert Link(mem, child, q, j);
        assert (q + [j])[..|q|] == q;
        if q + [j] in tables { Prefixes(p, tables, q + [j], |q|); }
      }
    }
  }

  lemma GraftOld(mem: Memory, now: Memory, p: Path, tables: Tables, i: nat, child: Tables, q: Path)
    requires Tree(mem, p, tables) && q in tables && Beside(mem, now, tables, p, i) && i < ENTRIES && |p| < 3
    requires p + [i] in child && IsTable(now[tables[p]][i]) && now[tables[p]][i].frame == child[p + [i]]
    requires forall r :: r in child ==> r !in tables
    requires forall r :: r in tables && |r| < 3 ==> forall j :: 0 <= j < ENTRIES && r + [j] in child ==>
      r == p && j == i
    ensures Linked(now, tables + child, q)
  {
    hide Shaped;
    assert Linked(mem, tables, q);
    if |q| < 3 {
      forall j | 0 <= j < ENTRIES ensures Link(now, tables + child, q, j) { assert Link(mem, tables, q, j); }
    }
  }

  // ----- splitting a 2 MiB page -----

  /** Entry i of the table that replaces a 2 MiB page: the old word without the
      size flag, plus i pages. */
  function SplitEntry(e: Entry, i: nat): Entry {
    e.(huge := false, frame := (e.frame + i) % FRAMES, high := (e.high + (e.frame + i) / FRAMES) % HIGHS)
  }

  function SplitTable(e: Entry): (t: seq<Entry>)
    ensures |t| == ENTRIES && forall i :: 0 <= i < ENTRIES ==> t[i] == SplitEntry(e, i)
  {
    seq(ENTRIES, (i: nat) => SplitEntry(e, i))
  }

  /** An entry as it fits into 64 bits. */
  predicate Word(e: Entry) { e.frame < FRAMES && e.high < HIGHS }

  /** The 64-bit word of an entry. */
  function Bits(e: Entry): nat {
    (if e.present then 1 else 0) + (if e.write then 2 else 0) + (if e.user then 4 else 0) +
    (if e.nocache then 0x10 else 0) + (if e.huge then 0x80 else 0) + e.rest + e.frame * 0x1000 +
    e.high * 0x10_0000_0000_0000
  }

  /** The entries of the new table as words: the old word without the size flag, and one page more each time. */
  lemma SplitWord(e: Entry, i: nat)
    requires Word(e) && e.huge && i < ENTRIES && e.rest < 0x1000
    ensures Bits(SplitEntry(e, i)) % 0x1_0000_0000_0000_0000 ==
      (Bits(e) - 0x80 + i * 0x1000) % 0x1_0000_0000_0000_0000
    ensures Bits(Zero()) == 0
  {
    var carry := (e.frame + i) / FRAMES;
    assert e.frame + i == carry * FRAMES + (e.frame + i) % FRAMES;
    assert carry <= 1;
    var wrap := (e.high + carry) / HIGHS;
    assert e.high + carry == wrap * HIGHS + (e.high + carry) % HIGHS;
    assert Bits(e) - 0x80 + i * 0x1000 == Bits(SplitEntry(e, i)) + wrap * 0x1_0000_0000_0000_0000;
  }

  /** Splitting keeps every page of the region exactly when the region was not
      mapped or bits 12 to 20 of its entry were clear: bit 12 is the memory-type
      bit of a large page, and the code adds it into the frame. */
  lemma SplitKeeps(mem: Memory, e: Entry)
    requires Word(e) && e.huge
    ensures (forall j :: 0 <= j < ENTRIES ==> Through(mem, SplitEntry(e, j), []) == Through(mem, e, [j])) <==>
      (e.present ==> e.frame % ENTRIES == 0)
  {
    forall j | 0 <= j < ENTRIES && (e.present ==> e.frame % ENTRIES == 0)
      ensures Through(mem, SplitEntry(e, j), []) == Through(mem, e, [j])
    {
      SplitOne(mem, e, j);
    }
    if e.present && e.frame % ENTRIES != 0 {
      assert Through(mem, SplitEntry(e, 0), []) == Some(LeafAt(e, e.frame, false));
      assert Through(mem, e, [0]) == Some(LeafAt(e, e.frame / ENTRIES * ENTRIES, e.frame % 2 == 1));
    }
  }

  /** A present large page with the memory-type bit set: its first page moves. */
  lemma SplitMoves(mem: Memory)
    ensures var e := Entry(true, true, false, false, true, 1, 0, 0);
      && Word(e) && Through(mem, e, [0]) == Some(LeafAt(e, 0, true))
      && Through(mem, SplitEntry(e, 0), []) == Some(LeafAt(e, 1, false))
  {
  }

  lemma SplitOne(mem: Memory, e: Entry, j: nat)
    requires Word(e) && e.huge && j < ENTRIES
    ensures Through(mem, SplitEntry(e, j), []) == Through(mem, e, [j]) <==> (e.present ==> e.frame % ENTRIES == 0)
  {
    if e.present && e.frame % ENTRIES == 0 {
      assert e.frame / ENTRIES * ENTRIES == e.frame;
      assert e.frame + j < FRAMES;
    }
    if e.present && e.frame % ENTRIES != 0 { Misplaced(e.frame, j); }
  }

  lemma Misplaced(frame: nat, j: nat)
    requires frame % ENTRIES != 0 && frame < FRAMES && j < ENTRIES
    ensures (frame + j) % FRAMES != frame / ENTRIES * ENTRIES + j
  {
  }
}
