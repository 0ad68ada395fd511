/** Page tables of src/arch/x86_64/paging.c: mapping with 2 MiB splitting,
    unmapping, cloning and destroying, over a pool of frames. */
module Paging {
  import opened Radix
  import opened Visits

  const ENOENT := -2
  const ENOMEM := -12
  const ENOTSUP := -95
  /** The topmost bit of an entry, among bits 52 to 63. */
  const NO_EXECUTE := 2048

  /** The mapping flags a caller passes. */
  datatype Flags = Flags(writable: bool, user: bool, executable: bool, nocache: bool)

  /** native_flags, with the frame of the page. */
  function Native(frame: nat, flags: Flags): (e: Entry)
    ensures Word(e) && e.present
  {
    Entry(true, flags.writable, flags.user, flags.nocache, false, frame % FRAMES,
          if flags.executable then 0 else NO_EXECUTE, 0)
  }

  /** A table entry for a frame, or the old entry with the table flags added. */
  function TableEntry(frame: nat, user: bool): (e: Entry)
    ensures IsTable(e) && e.frame == frame
  {
    Entry(true, true, user, false, false, frame, 0, 0)
  }

  function Granting(e: Entry, user: bool): Entry { e.(present := true, write := true, user := e.user || user) }

  /** The same translation of every page. */
  ghost predicate SamePages(mem: Memory, now: Memory, root: nat) {
    forall w :: IsPage(w) ==> Walk(now, root, w) == Walk(mem, root, w)
  }

  /** The same translation of every page that is not below a position. */
  ghost predicate SameOutside(mem: Memory, now: Memory, root: nat, p: Path) {
    forall w :: IsPage(w) && !IsPrefix(p, w) ==> Walk(now, root, w) == Walk(mem, root, w)
  }

  /** Every page below a position has another translation. */
  ghost predicate AllMoved(mem: Memory, now: Memory, root: nat, p: Path) {
    forall w :: IsPage(w) && IsPrefix(p, w) ==> Walk(now, root, w) != Walk(mem, root, w)
  }

  /** An entry behind which the flags of the last level decide who may read and write. */
  predicate Opens(e: Entry, user: bool) { IsTable(e) && e.write && (user ==> e.user) }

  /** The first levels on the way to a page take no permission away. */
  ghost predicate OpenTo(mem: Memory, tables: Tables, w: Path, n: nat, user: bool) {
    n <= |w| && forall m :: 0 <= m < n ==> OpenAt(mem, tables, w, m, user)
  }

  ghost predicate OpenAt(mem: Memory, tables: Tables, w: Path, m: nat, user: bool)
    requires m < |w|
  {
    && w[..m] in tables && tables[w[..m]] in mem && w[m] < |mem[tables[w[..m]]]|
    && Opens(mem[tables[w[..m]]][w[m]], user)
  }

  /** An entry behind which nothing can be executed. */
  predicate Bars(e: Entry) { IsTable(e) && e.high >= NO_EXECUTE }

  ghost predicate BarsAt(mem: Memory, tables: Tables, w: Path, m: nat) {
    && m < |w| && w[..m] in tables && tables[w[..m]] in mem && w[m] < |mem[tables[w[..m]]]|
    && Bars(mem[tables[w[..m]]][w[m]])
  }

  /** Some table on the way to a page forbids execution. */
  ghost predicate Barred(mem: Memory, tables: Tables, w: Path) { exists m :: 0 <= m < 3 && BarsAt(mem, tables, w, m) }

  /** Code can be run at a page: its own entry and all tables on the way let it. */
  ghost predicate Executable(mem: Memory, root: nat, tables: Tables, w: Path)
    requires IsPage(w)
  {
    !Barred(mem, tables, w) && Walk(mem, root, w).Some? && Walk(mem, root, w).value.high < NO_EXECUTE
  }

  /** The tables on the way forbid execution where they did. */
  ghost predicate SameBars(mem: Memory, tables: Tables, now: Memory, more: Tables, w: Path) {
    forall m :: 0 <= m < 3 ==> (BarsAt(now, more, w, m) <==> BarsAt(mem, tables, w, m))
  }

  /** New tables have nothing in them, or are of the last level. */
  ghost predicate NewEmpty(now: Memory, tables: Tables, more: Tables) {
    forall q :: q in more && q !in tables ==> |q| == 3 || (more[q] in now && now[more[q]] == ZeroTable())
  }

  lemma NothingNew(now: Memory, tables: Tables)
    ensures NewEmpty(now, tables, tables)
  {
  }

  /** One entry on the way was changed and forbids what it did. */
  lemma BarsNext(mem: Memory, now: Memory, held: set<nat>, root: nat, tables: Tables, more: Tables, w: Path, n: nat)
    requires Rooted(mem, held, root, tables) && IsPage(w) && n <= 3 && w[..n] in tables && Extends(tables, more)
    requires OnlyTable(mem, now, tables[w[..n]]) && NewEmpty(now, tables, more)
    requires n < 3 ==> (BarsAt(now, more, w, n) <==> BarsAt(mem, tables, w, n))
    ensures SameBars(mem, tables, now, more, w)
  {
    forall m | 0 <= m < 3 && m != n ensures BarsAt(now, more, w, m) <==> BarsAt(mem, tables, w, m) {
      assert |w[..m]| != |w[..n]|;
    }
  }

  lemma BarsHere(mem: Memory, now: Memory, held: set<nat>, root: nat, tables: Tables, more: Tables, w: Path, n: nat)
    requires Rooted(mem, held, root, tables) && IsPage(w) && n < 3 && w[..n] in tables && Extends(tables, more)
    requires OnlyTable(mem, now, tables[w[..n]]) && NewEmpty(now, tables, more)
    requires var t := tables[w[..n]]; t in mem && t in now && w[n] < |mem[t]| && w[n] < |now[t]|
    requires Bars(now[tables[w[..n]]][w[n]]) <==> Bars(mem[tables[w[..n]]][w[n]])
    ensures SameBars(mem, tables, now, more, w)
  {
    hide Rooted, OnlyTable, NewEmpty, SameBars, Bars;
    BarsNext(mem, now, held, root, tables, more, w, n);
  }

  lemma BarsThen(a: Memory, s: Tables, b: Memory, t: Tables, c: Memory, u: Tables, w: Path)
    requires SameBars(a, s, b, t, w) && SameBars(b, t, c, u, w)
    ensures SameBars(a, s, c, u, w)
  {
    hide BarsAt;
  }

  lemma BarsSame(mem: Memory, tables: Tables, now: Memory, more: Tables, w: Path)
    requires SameBars(mem, tables, now, more, w)
    ensures Barred(now, more, w) <==> Barred(mem, tables, w)
  {
    hide BarsAt;
  }

  /** All tables but one keep their contents. */
  ghost predicate OnlyTable(mem: Memory, now: Memory, t: nat) {
    forall x :: x in mem && x != t ==> x in now && now[x] == mem[x]
  }

  /** The other entries of that one too. */
  ghost predicate OnlyEntry(mem: Memory, now: Memory, t: nat, i: nat) {
    && OnlyTable(mem, now, t) && t in mem && t in now && |now[t]| == |mem[t]|
    && forall j :: 0 <= j < |mem[t]| && j != i ==> now[t][j] == mem[t][j]
  }

  /** A table entry with the table flags added. */
  predicate Wider(e: Entry, f: Entry, user: bool) { f == e.(write := true, user := e.user || user) }

  /** What mapping makes of an entry on the way: a table keeps all it has and gains what was asked for; where there was
      none, a new one grants what was asked for, and what a large page split for it granted. */
  predicate Became(e: Entry, f: Entry, user: bool, last: bool) {
    if IsTable(e) then Wider(e, f, user)
    else
      && IsTable(f) && f.write && f.user == (user || (last && e.huge && e.user))
      && !f.nocache && f.high == 0 && f.rest == 0
  }

  ghost predicate WidenedAt(mem: Memory, tables: Tables, now: Memory, w: Path, user: bool, n: nat, q: Path, j: nat)
    requires q in tables
  {
    && tables[q] in mem && tables[q] in now && j < |mem[tables[q]]| && j < |now[tables[q]]|
    && var e, f := mem[tables[q]][j], now[tables[q]][j];
    if IsPrefix(q + [j], w) && |q| < n then |q| < 3 ==> Became(e, f, user, |q| == 2) else f == e
  }

  /** The entries of the first levels on the way to a page have the table flags added and lose nothing; all other
      entries of the tables are as they were. */
  ghost predicate Widened(mem: Memory, tables: Tables, now: Memory, w: Path, user: bool, n: nat) {
    forall q, j :: q in tables && 0 <= j < ENTRIES ==> WidenedAt(mem, tables, now, w, user, n, q, j)
  }

  ghost predicate PartWidened(mem: Memory, tables: Tables, now: Memory, w: Path, user: bool, most: nat) {
    exists n :: 0 <= n <= most && Widened(mem, tables, now, w, user, n)
  }

  lemma PartMore(mem: Memory, tables: Tables, now: Memory, w: Path, user: bool, n: nat)
    ensures PartWidened(mem, tables, now, w, user, n) ==> PartWidened(mem, tables, now, w, user, n + 1)
    ensures Widened(mem, tables, now, w, user, n) ==> PartWidened(mem, tables, now, w, user, n + 1)
  {
    hide Widened;
  }

  lemma ExtendsSelf(a: Tables)
    ensures Extends(a, a)
  {
  }

  lemma ExtendsThen(a: Tables, b: Tables, c: Tables)
    requires Extends(a, b) && Extends(b, c)
    ensures Extends(a, c)
  {
  }

  lemma WidenedStart(mem: Memory, held: set<nat>, root: nat, tables: Tables, w: Path, user: bool)
    requires Rooted(mem, held, root, tables)
    ensures Widened(mem, tables, mem, w, user, 0)
  {
    forall q, j | q in tables && 0 <= j < ENTRIES ensures WidenedAt(mem, tables, mem, w, user, 0, q, j) {
      TableAt(mem, held, root, tables, q);
    }
  }

  lemma TablesApart(mem: Memory, held: set<nat>, root: nat, tables: Tables, q: Path, r: Path)
    requires Rooted(mem, held, root, tables) && q in tables && r in tables && q != r
    ensures tables[q] != tables[r]
  {
  }

  /** One level more. */
  lemma WidenedNext(mem: Memory, tables: Tables, mid: Memory, held: set<nat>, root: nat, more: Tables, now: Memory,
                    w: Path, user: bool, n: nat)
    requires Widened(mem, tables, mid, w, user, n) && Rooted(mid, held, root, more) && Extends(tables, more)
    requires IsPage(w) && n <= 3 && w[..n] in more && OnlyEntry(mid, now, more[w[..n]], w[n])
    requires w[n] < |mid[more[w[..n]]]|
    requires var t := more[w[..n]];
      n < 3 ==> Became(mid[t][w[n]], now[t][w[n]], user, n == 2)
    ensures Widened(mem, tables, now, w, user, n + 1)
  {
    hide Rooted, WidenedAt, OnlyEntry, Became;
    var k := n + 1;
    forall q, j | q in tables && 0 <= j < ENTRIES ensures WidenedAt(mem, tables, now, w, user, k, q, j) {
      assert WidenedAt(mem, tables, mid, w, user, n, q, j);
      if q != w[..n] { TablesApart(mid, held, root, more, q, w[..n]); }
      WidenedOne(mem, tables, mid, now, w, user, n, more[w[..n]], q, j);
    }
  }

  lemma WidenedOne(mem: Memory, tables: Tables, mid: Memory, now: Memory, w: Path, user: bool, n: nat, t: nat, q: Path,
                   j: nat)
    requires q in tables && WidenedAt(mem, tables, mid, w, user, n, q, j) && IsPage(w) && n <= 3
    requires OnlyEntry(mid, now, t, w[n]) && w[n] < |mid[t]| && (q == w[..n] <==> tables[q] == t)
    requires n < 3 ==> Became(mid[t][w[n]], now[t][w[n]], user, n == 2)
    ensures WidenedAt(mem, tables, now, w, user, n + 1, q, j)
  {
    hide Became;
    assert IsPrefix(q + [j], w) && |q| == n ==> q == w[..n] && j == w[n] by {
      if IsPrefix(q + [j], w) && |q| == n { assert w[..n + 1] == q + [j] && w[..n] == w[..n + 1][..n]; }
    }
  }

  ghost predicate Extends(tables: Tables, more: Tables) {
    forall q :: q in tables ==> q in more && more[q] == tables[q]
  }

  lemma PutOnly(mem: Memory, t: nat, i: nat, e: Entry, tables: Tables)
    requires t in mem && i < |mem[t]|
    ensures OnlyEntry(mem, Put(mem, t, i, e), t, i)
    ensures OnlyTable(mem, Put(mem, t, i, e), t) && Extends(tables, tables)
  {
  }

  lemma OpenStart(mem: Memory, tables: Tables, w: Path, user: bool)
    ensures OpenTo(mem, tables, w, 0, user)
  {
  }

  /** A table on the way was changed, and its entry lets through. */
  lemma OpenNext(mem: Memory, now: Memory, held: set<nat>, root: nat, tables: Tables, more: Tables, w: Path, n: nat,
                 user: bool)
    requires Rooted(mem, held, root, tables) && OpenTo(mem, tables, w, n, user) && n < |w| && w[..n] in tables
    requires Extends(tables, more)
    requires OnlyTable(mem, now, tables[w[..n]])
    ensures OpenTo(now, more, w, n, user)
    ensures var t := tables[w[..n]]; t in now && w[n] < |now[t]| && Opens(now[t][w[n]], user) ==> OpenTo(now, more, w,
                                                                                                         n + 1, user)
  {
    forall m | 0 <= m < n ensures OpenAt(now, more, w, m, user) {
      assert OpenAt(mem, tables, w, m, user);
      assert |w[..m]| != |w[..n]|;
    }
  }

  /** Tables that do not belong to the tree keep their contents. */
  ghost predicate SameElsewhere(mem: Memory, now: Memory, tables: Tables) {
    forall t :: t in mem && t !in tables.Values ==> t in now && now[t] == mem[t]
  }

  /** The entry of the third level on the way to a page. */
  ghost function Directory(mem: Memory, root: nat, w: Path): Option<Entry>
    requires IsPage(w)
  {
    if root !in mem || |mem[root]| != ENTRIES || !IsTable(mem[root][w[0]]) then None else
    var pdpt := mem[root][w[0]].frame;
    if pdpt !in mem || |mem[pdpt]| != ENTRIES || !IsTable(mem[pdpt][w[1]]) then None else
    var pd := mem[pdpt][w[1]].frame;
    if pd !in mem || |mem[pd]| != ENTRIES then None else Some(mem[pd][w[2]])
  }

  /** If the page lies in a 2 MiB page, that one can be split without moving anything. */
  ghost predicate SplitSafe(mem: Memory, root: nat, w: Path)
    requires IsPage(w)
  {
    var d := Directory(mem, root, w);
    d.Some? && d.value.huge && d.value.present ==> d.value.frame % ENTRIES == 0
  }

  /** The page lies in a 1 GiB page. */
  ghost predicate Gigantic(mem: Memory, root: nat, w: Path)
    requires IsPage(w)
  {
    && root in mem && |mem[root]| == ENTRIES && IsTable(mem[root][w[0]])
    && var pdpt := mem[root][w[0]].frame;
    && pdpt in mem && |mem[pdpt]| == ENTRIES && mem[pdpt][w[1]].present && mem[pdpt][w[1]].huge
  }

  /** No large page appears that was not there. */
  ghost predicate SameLarge(mem: Memory, now: Memory, root: nat) {
    forall w :: IsPage(w) ==>
      && (Directory(now, root, w).Some? && Directory(now, root, w).value.huge ==>
            Directory(mem, root, w) == Directory(now, root, w))
      && (Directory(mem, root, w).Some? && Directory(mem, root, w).value.huge ==>
            Directory(mem, root, w) == Directory(now, root, w))
      && (Gigantic(now, root, w) <==> Gigantic(mem, root, w))
  }

  // ----- the tree of one root -----

  ghost predicate Words(mem: Memory) {
    forall t, i :: t in mem && 0 <= i < |mem[t]| ==> Word(mem[t][i])
  }

  ghost predicate SmallRoot(mem: Memory, root: nat) {
    root in mem ==> forall i :: 0 <= i < |mem[root]| ==> !mem[root][i].huge
  }

  /** The tables of a root form a tree, all in frames that are in use. */
  ghost predicate Rooted(mem: Memory, held: set<nat>, root: nat, tables: Tables) {
    Tree(mem, [], tables) && tables[[]] == root && mem.Keys <= held && Words(mem) && SmallRoot(mem, root)
  }

  function Put(mem: Memory, t: nat, i: nat, e: Entry): Memory
    requires t in mem && i < |mem[t]|
  {
    mem[t := mem[t][i := e]]
  }

  lemma TableAt(mem: Memory, held: set<nat>, root: nat, tables: Tables, p: Path)
    requires Rooted(mem, held, root, tables) && p in tables
    ensures |p| <= 3 && tables[p] in mem && |mem[tables[p]]| == ENTRIES && tables[p] in held
    ensures p == [] ==> forall i :: 0 <= i < ENTRIES ==> !mem[tables[p]][i].huge
  {
    assert Linked(mem, tables, p) && Place([], tables, p);
  }

  lemma RootAt(mem: Memory, held: set<nat>, root: nat, tables: Tables)
    requires Rooted(mem, held, root, tables)
    ensures [] in tables && tables[[]] == root
  {
  }

  lemma ChildAt(mem: Memory, held: set<nat>, root: nat, tables: Tables, p: Path, i: nat)
    requires Rooted(mem, held, root, tables) && p in tables && |p| < 3 && i < ENTRIES
    requires tables[p] in mem && |mem[tables[p]]| == ENTRIES
    ensures IsTable(mem[tables[p]][i]) <==> p + [i] in tables
    ensures IsTable(mem[tables[p]][i]) ==> tables[p + [i]] == mem[tables[p]][i].frame
  {
    assert Linked(mem, tables, p) && Link(mem, tables, p, i);
  }

  lemma BesidePut(mem: Memory, held: set<nat>, root: nat, tables: Tables, p: Path, i: nat, e: Entry)
    requires Rooted(mem, held, root, tables) && p in tables && i < ENTRIES
    ensures Linked(mem, tables, p) && Beside(mem, Put(mem, tables[p], i, e), tables, p, i)
  {
    assert Linked(mem, tables, p);
    var now := Put(mem, tables[p], i, e);
    forall q | q in tables
      ensures tables[q] in mem && tables[q] in now && |now[tables[q]]| == |mem[tables[q]]| == ENTRIES
      ensures forall j :: 0 <= j < ENTRIES && !(q == p && j == i) ==> now[tables[q]][j] == mem[tables[q]][j]
    {
      assert Linked(mem, tables, q);
    }
  }

  /** Adding the table flags to a table entry moves nothing. */
  lemma Grants(mem: Memory, held: set<nat>, root: nat, tables: Tables, p: Path, i: nat, user: bool)
    requires Rooted(mem, held, root, tables) && p in tables && |p| < 3 && i < ENTRIES
    requires tables[p] in mem && |mem[tables[p]]| == ENTRIES && IsTable(mem[tables[p]][i])
    ensures var now := Put(mem, tables[p], i, Granting(mem[tables[p]][i], user));
      && Rooted(now, held, root, tables) && SamePages(mem, now, root) && SameElsewhere(mem, now, tables)
      && (|p| < 2 ==> SameLarge(mem, now, root))
  {
    hide Tree, Beside, SameLarge;
    var e := mem[tables[p]][i];
    var now := Put(mem, tables[p], i, Granting(e, user));
    BesidePut(mem, held, root, tables, p, i, Granting(e, user));
    TreeKeep(mem, now, [], tables, p, i);
    RootAt(mem, held, root, tables);
    forall w | IsPage(w) ensures Walk(now, root, w) == Walk(mem, root, w) {
      assert [] + w == w;
      if IsPrefix(p + [i], w) { Below(mem, now, [], tables, p, i, w); }
      Swap(mem, now, [], tables, p, i, [], w);
    }
    if |p| < 2 { LargeKept(mem, now, held, held, root, tables, tables, p, i); }
  }

  /** Below a table entry that keeps its frame nothing changes. */
  lemma Below(mem: Memory, now: Memory, base: Path, tables: Tables, p: Path, i: nat, w: Path)
    requires Tree(mem, base, tables) && Beside(mem, now, tables, p, i) && p in tables && |p| < 3 && i < ENTRIES
    requires IsTable(mem[tables[p]][i]) && IsTable(now[tables[p]][i])
    requires now[tables[p]][i].frame == mem[tables[p]][i].frame
    requires IsPage(w) && IsPrefix(p + [i], w)
    ensures Through(now, now[tables[p]][i], w[|p| + 1..]) == Through(mem, mem[tables[p]][i], w[|p| + 1..])
  {
    var v := w[|p| + 1..];
    assert Linked(mem, tables, p) && Link(mem, tables, p, i);
    Deeper(mem, now, base, tables, p, i, p + [i], v);
  }

  lemma {:induction false} Deeper(mem: Memory, now: Memory, base: Path, tables: Tables, p: Path, i: nat, q: Path,
                                  v: Path)
    requires Tree(mem, base, tables) && Beside(mem, now, tables, p, i) && p in tables && i < ENTRIES
    requires q in tables && |q| > |p| && |q| + |v| == 4 && Indices(v)
    ensures Walk(now, tables[q], v) == Walk(mem, tables[q], v)
    decreases |v|
  {
    hide Shaped;
    Depth(base, tables, q);
    assert Linked(mem, tables, q);
    var e := mem[tables[q]][v[0]];
    if IsTable(e) && |v| > 1 {
      assert Link(mem, tables, q, v[0]);
      Deeper(mem, now, base, tables, p, i, q + [v[0]], v[1..]);
    }
  }

  lemma DirectoryAt(mem: Memory, held: set<nat>, root: nat, tables: Tables, w: Path)
    requires Rooted(mem, held, root, tables) && IsPage(w)
    ensures Gigantic(mem, root, w) <==>
      && [w[0]] in tables && Linked(mem, tables, [w[0]]) && mem[tables[[w[0]]]][w[1]].present
      && mem[tables[[w[0]]]][w[1]].huge
    ensures Directory(mem, root, w) ==
      if [w[0], w[1]] in tables && Linked(mem, tables, [w[0], w[1]]) then Some(mem[tables[[w[0], w[1]]]][w[2]])
      else None
  {
    hide Shaped;
    RootAt(mem, held, root, tables);
    assert Linked(mem, tables, []) && Link(mem, tables, [], w[0]) && [] + [w[0]] == [w[0]];
    assert [w[0]] + [w[1]] == [w[0], w[1]];
    Parents(tables, w[0], w[1]);
    if [w[0]] in tables {
      assert Linked(mem, tables, [w[0]]) && Link(mem, tables, [w[0]], w[1]);
      assert [w[0], w[1]] in tables ==> Linked(mem, tables, [w[0], w[1]]);
    }
  }

  lemma Parents(tables: Tables, a: nat, b: nat)
    requires Shaped([], tables)
    ensures [a, b] in tables ==> [a] in tables
  {
    assert [a, b][..1] == [a];
    assert [a, b] in tables ==> Place([], tables, [a, b]);
  }

  lemma LargeKept(mem: Memory, now: Memory, held: set<nat>, held': set<nat>, root: nat, tables: Tables, more: Tables,
                  p: Path, i: nat)
    requires Rooted(mem, held, root, tables) && Rooted(now, held', root, more)
    requires Beside(mem, now, tables, p, i) && p in tables && i < ENTRIES && |p| < 2
    requires more == tables || (p + [i] in more && more == tables[p + [i] := more[p + [i]]])
    requires !now[tables[p]][i].huge && !(mem[tables[p]][i].present && mem[tables[p]][i].huge)
    requires more != tables ==>
      p + [i] !in tables && more[p + [i]] in now && forall j :: 0 <= j < |now[more[p + [i]]]| ==>
        now[more[p + [i]]][j] == Zero()
    ensures SameLarge(mem, now, root)
  {
    hide Tree, Directory, Gigantic;
    forall w | IsPage(w)
      ensures Directory(now, root, w).Some? && Directory(now, root, w).value.huge ==>
        Directory(mem, root, w) == Directory(now, root, w)
      ensures Directory(mem, root, w).Some? && Directory(mem, root, w).value.huge ==>
        Directory(mem, root, w) == Directory(now, root, w)
      ensures Gigantic(now, root, w) <==> Gigantic(mem, root, w)
    {
      LinkedAt(now, held', root, more, [w[0], w[1]]);
      DirectoryAt(mem, held, root, tables, w);
      DirectoryAt(now, held', root, more, w);
      LinkedAt(mem, held, root, tables, [w[0]]);
      LinkedAt(mem, held, root, tables, [w[0], w[1]]);
      LinkedAt(now, held', root, more, [w[0]]);
      if [w[0]] == p + [i] { assert |p + [i]| == 1 && p == []; }
    }
  }

  lemma LinkedAt(mem: Memory, held: set<nat>, root: nat, tables: Tables, q: Path)
    requires Rooted(mem, held, root, tables)
    ensures q in tables ==> Linked(mem, tables, q)
  {
  }

  function WithTable(mem: Memory, t: nat, i: nat, e: Entry, z: nat, fill: seq<Entry>): Memory
    requires t in mem && i < |mem[t]|
  {
    mem[z := fill][t := mem[t][i := e]]
  }

  lemma BesideFill(mem: Memory, held: set<nat>, root: nat, tables: Tables, p: Path, i: nat, e: Entry, z: nat,
                   fill: seq<Entry>)
    requires Rooted(mem, held, root, tables) && p in tables && i < ENTRIES && z !in held
    ensures Linked(mem, tables, p) && Beside(mem, WithTable(mem, tables[p], i, e, z, fill), tables, p, i)
    ensures z !in mem && z !in tables.Values
  {
    assert Linked(mem, tables, p);
    var now := WithTable(mem, tables[p], i, e, z, fill);
    forall q | q in tables
      ensures tables[q] in mem && tables[q] in now && |now[tables[q]]| == |mem[tables[q]]| == ENTRIES
      ensures forall j :: 0 <= j < ENTRIES && !(q == p && j == i) ==> now[tables[q]][j] == mem[tables[q]][j]
    {
      assert Linked(mem, tables, q);
    }
  }

  /** A new empty table below an absent entry moves nothing. */
  lemma Attaches(mem: Memory, held: set<nat>, root: nat, tables: Tables, p: Path, i: nat, user: bool, z: nat)
    requires Rooted(mem, held, root, tables) && p in tables && |p| < 3 && i < ENTRIES && z !in held && z < FRAMES
    requires tables[p] in mem && |mem[tables[p]]| == ENTRIES && !mem[tables[p]][i].present
    ensures var now := WithTable(mem, tables[p], i, TableEntry(z, user), z, ZeroTable());
      && Rooted(now, held + {z}, root, tables[p + [i] := z]) && p + [i] !in tables
      && SamePages(mem, now, root) && SameElsewhere(mem, now, tables) && z !in tables.Values
      && (|p| < 2 ==> SameLarge(mem, now, root))
  {
    hide Tree, Beside, SameLarge;
    var e := TableEntry(z, user);
    var now := WithTable(mem, tables[p], i, e, z, ZeroTable());
    BesideFill(mem, held, root, tables, p, i, e, z, ZeroTable());
    TreeAttach(mem, now, [], tables, p, i, z);
    RootAt(mem, held, root, tables);
    forall w | IsPage(w) ensures Walk(now, root, w) == Walk(mem, root, w) {
      assert [] + w == w;
      if IsPrefix(p + [i], w) { NothingBelow(now, z, w[|p| + 1..]); }
      Swap(mem, now, [], tables, p, i, [], w);
    }
    if |p| < 2 { LargeKept(mem, now, held, held + {z}, root, tables, tables[p + [i] := z], p, i); }
  }

  lemma NothingBelow(mem: Memory, z: nat, v: Path)
    requires z in mem && forall i :: 0 <= i < |mem[z]| ==> !mem[z][i].present
    ensures Walk(mem, z, v) == None
  {
  }

  /** The directory entry that replaces a 2 MiB page, with the table flags added. */
  function SplitParent(old_: Entry, z: nat, user: bool): Entry {
    Granting(TableEntry(z, old_.user), user)
  }

  /** Splitting a 2 MiB page moves nothing outside it, and nothing inside it when
      its entry was aligned. */
  lemma Splits(mem: Memory, held: set<nat>, root: nat, tables: Tables, p: Path, i: nat, user: bool, z: nat)
    requires Rooted(mem, held, root, tables) && p in tables && |p| == 2 && i < ENTRIES && z !in held && z < FRAMES
    requires tables[p] in mem && |mem[tables[p]]| == ENTRIES && mem[tables[p]][i].huge
    ensures var e := mem[tables[p]][i];
      var now := WithTable(mem, tables[p], i, SplitParent(e, z, user), z, SplitTable(e));
      && Rooted(now, held + {z}, root, tables[p + [i] := z]) && p + [i] !in tables
      && SameOutside(mem, now, root, p + [i]) && SameElsewhere(mem, now, tables) && z !in tables.Values
      && (if e.present && e.frame % ENTRIES != 0 then AllMoved(mem, now, root, p + [i]) else SamePages(mem, now, root))
  {
    hide Tree, Beside;
    var e := mem[tables[p]][i];
    var n := SplitParent(e, z, user);
    var now := WithTable(mem, tables[p], i, n, z, SplitTable(e));
    BesideFill(mem, held, root, tables, p, i, n, z, SplitTable(e));
    TreeAttach(mem, now, [], tables, p, i, z);
    RootAt(mem, held, root, tables);
    var safe := e.present ==> e.frame % ENTRIES == 0;
    forall w | IsPage(w) ensures Walk(now, root, w) == Walk(mem, root, w) <==> safe || !IsPrefix(p + [i], w) {
      assert [] + w == w;
      if IsPrefix(p + [i], w) {
        assert w[..2] == w[..3][..2] == p && w[2] == w[..3][2] == i && w[0..] == w && w[..0] == [];
        assert w[|p| + 1..] == [w[3]];
        SplitWalk(mem, now, e, n, z, w[3]);
        WalkDown(mem, [], tables, w, 0, 2);
        WalkDown(now, [], tables[p + [i] := z], w, 0, 2);
      } else {
        Swap(mem, now, [], tables, p, i, [], w);
      }
    }
  }

  lemma SplitWalk(mem: Memory, now: Memory, e: Entry, n: Entry, z: nat, j: nat)
    requires Word(e) && e.huge && j < ENTRIES
    requires z in now && now[z] == SplitTable(e) && IsTable(n) && n.frame == z
    ensures Through(now, n, [j]) == Through(mem, e, [j]) <==> (e.present ==> e.frame % ENTRIES == 0)
  {
    SplitOne(mem, e, j);
    assert [j][1..] == [];
    assert Through(now, n, [j]) == Walk(now, z, [j]) == Through(now, SplitEntry(e, j), []);
  }

  /** Writing one entry of a page table changes one page. */
  lemma Leaves(mem: Memory, held: set<nat>, root: nat, tables: Tables, p: Path, i: nat, e: Entry)
    requires Rooted(mem, held, root, tables) && p in tables && |p| == 3 && i < ENTRIES && Word(e)
    requires tables[p] in mem && |mem[tables[p]]| == ENTRIES
    ensures var now := Put(mem, tables[p], i, e);
      && Rooted(now, held, root, tables) && SameOutside(mem, now, root, p + [i]) && SameElsewhere(mem, now, tables)
      && Walk(now, root, p + [i]) == if e.present then Some(LeafAt(e, e.frame, e.huge)) else None
  {
    hide Tree, Beside;
    var now := Put(mem, tables[p], i, e);
    BesidePut(mem, held, root, tables, p, i, e);
    TreeKeep(mem, now, [], tables, p, i);
    RootAt(mem, held, root, tables);
    forall w | IsPage(w) && !IsPrefix(p + [i], w) ensures Walk(now, root, w) == Walk(mem, root, w) {
      assert [] + w == w;
      Swap(mem, now, [], tables, p, i, [], w);
    }
    Arrives(now, [], tables, p, i, []);
  }

  /** The walk to a page reaches its page table. */
  lemma {:induction false} Arrives(mem: Memory, base: Path, tables: Tables, p: Path, i: nat, q: Path)
    requires Tree(mem, base, tables) && p in tables && |p| == 3 && i < ENTRIES
    requires q in tables && IsPrefix(q, p) && IsPrefix(base, q)
    ensures Linked(mem, tables, p) && Walk(mem, tables[q], p[|q|..] + [i]) == Through(mem, mem[tables[p]][i], [])
    decreases |p| - |q|
  {
    hide Shaped;
    Depth(base, tables, p);
    assert Linked(mem, tables, p) && Linked(mem, tables, q);
    var w := p[|q|..] + [i];
    if |q| == 3 {
      assert p[..3] == p && w == [i] && w[1..] == [];
    } else {
      Prefixes(base, tables, p, |q| + 1);
      assert p[..|q| + 1] == p[..|q|] + [p[|q|]];
      assert Link(mem, tables, q, p[|q|]);
      Arrives(mem, base, tables, p, i, q + [p[|q|]]);
      assert w[1..] == p[|q| + 1..] + [i];
    }
  }

  class PageTables {
    var mem: Memory
    /** Frames in use, and how often a frame was asked for. */
    var held: set<nat>
    var asked: nat
    /** What the frame allocator answers; zero and frames in use mean failure. */
    const answer: nat -> nat
    const kernelRoot: nat

    constructor (mem: Memory, held: set<nat>, kernelRoot: nat, answer: nat -> nat)
      ensures this.mem == mem && this.held == held && this.kernelRoot == kernelRoot && this.answer == answer
      ensures asked == 0
    {
      this.mem, this.held, this.asked, this.kernelRoot, this.answer := mem, held, 0, kernelRoot, answer;
    }

    /** The frame allocator has just said no. */
    predicate Refused()
      reads this
    {
      asked > 0 && Refuses(answer(asked - 1), held)
    }

    /** allocate_table: a frame nobody uses, zeroed, or none. */
    method AllocateTable() returns (z: nat)
      requires mem.Keys <= held
      modifies this
      ensures asked == old(asked) + 1 && (z == 0 <==> Refuses(answer(old(asked)), old(held)))
      ensures z == 0 ==> mem == old(mem) && held == old(held) && Refused()
      ensures z != 0 ==> z == answer(old(asked))
      ensures z != 0 ==> z !in old(held) && z < FRAMES && held == old(held) + {z} && mem == old(mem)[z := ZeroTable()]
    {
      z := answer(asked);
      asked := asked + 1;
      if Refuses(z, held) { return 0; }
      held := held + {z};
      mem := mem[z := ZeroTable()];
    }

    method SetEntry(t: nat, i: nat, e: Entry)
      requires t in mem && i < |mem[t]|
      modifies this`mem
      ensures mem == Put(old(mem), t, i, e)
    {
      mem := mem[t := mem[t][i := e]];
    }

    /** One level down: the table flags on the entry, or a new table behind it. */
    method Enter(ghost root: nat, ghost tables: Tables, ghost p: Path, t: nat, i: nat, user: bool)
      returns (r: int, next: nat, ghost more: Tables)
      requires Rooted(mem, held, root, tables) && p in tables && tables[p] == t && |p| < 3 && i < ENTRIES
      requires t in mem && |mem[t]| == ENTRIES && !(mem[t][i].present && mem[t][i].huge)
      modifies this
      ensures r == 0 || (r == ENOMEM && more == tables && Refused() && mem == old(mem) && !mem[t][i].present)
      ensures Rooted(mem, held, root, more) && SamePages(old(mem), mem, root) && SameElsewhere(old(mem), mem, tables)
      ensures Grown(old(held), held, tables, more)
      ensures r == 0 ==> p + [i] in more && more[p + [i]] == next
      ensures |p| < 2 ==> SameLarge(old(mem), mem, root)
      ensures Extends(tables, more) && OnlyTable(old(mem), mem, t) && OnlyEntry(old(mem), mem, t, i)
      ensures r == 0 ==> i < |mem[t]| && Became(old(mem)[t][i], mem[t][i], user, false)
      ensures r == 0 ==>
        t in mem && i < |mem[t]| && Opens(mem[t][i], user) && (Bars(mem[t][i]) <==> Bars(old(mem)[t][i]))
      ensures NewEmpty(mem, tables, more)
    {
      hide Rooted, SamePages, SameElsewhere, SameLarge;
      Refl(mem, root, tables);
      if !mem[t][i].present {
        RootAt(mem, held, root, tables);
        TableAt(mem, held, root, tables, p);
        KeysHeld(mem, held, root, tables);
        var z := AllocateTable();
        if z == 0 { return ENOMEM, 0, tables; }
        Attaches(old(mem), old(held), root, tables, p, i, user, z);
        SetEntry(t, i, TableEntry(z, user));
        assert mem == WithTable(old(mem), t, i, TableEntry(z, user), z, ZeroTable());
        Grows(held - {z}, tables, p + [i], z);
        return 0, z, tables[p + [i] := z];
      } else {
        Grants(mem, held, root, tables, p, i, user);
        ChildAt(mem, held, root, tables, p, i);
        SetEntry(t, i, Granting(mem[t][i], user));
        return 0, mem[t][i].frame, tables;
      }
    }

    /** split_2m_page, and the table flags that its caller adds. */
    method Split(ghost root: nat, ghost tables: Tables, ghost p: Path, t: nat, i: nat, user: bool)
      returns (r: int, ghost more: Tables)
      requires Rooted(mem, held, root, tables) && p in tables && tables[p] == t && |p| == 2 && i < ENTRIES
      requires t in mem && |mem[t]| == ENTRIES && mem[t][i].huge
      modifies this
      ensures r == 0 || (r == ENOMEM && more == tables && Refused() && mem == old(mem))
      ensures Rooted(mem, held, root, more) && SameElsewhere(old(mem), mem, tables)
      ensures SameOutside(old(mem), mem, root, p + [i])
      ensures r != 0 || (old(mem)[t][i].present ==> old(mem)[t][i].frame % ENTRIES == 0) ==>
        SamePages(old(mem), mem, root)
      ensures r == 0 && old(mem)[t][i].present && old(mem)[t][i].frame % ENTRIES != 0 ==>
        AllMoved(old(mem), mem, root, p + [i])
      ensures Grown(old(held), held, tables, more)
      ensures r == 0 ==> p + [i] in more && t in mem && i < |mem[t]| && mem[t][i].frame == more[p + [i]]
      ensures Extends(tables, more) && OnlyTable(old(mem), mem, t) && OnlyEntry(old(mem), mem, t, i)
      ensures r == 0 ==> Became(old(mem)[t][i], mem[t][i], user, true)
      ensures r == 0 ==> Opens(mem[t][i], user) && !Bars(mem[t][i])
      ensures NewEmpty(mem, tables, more)
    {
      hide Rooted, SamePages, SameElsewhere, SameOutside, AllMoved;
      Refl(mem, root, tables);
      Outside(mem, mem, root, p + [i]);
      var was := mem[t][i];
      KeysHeld(mem, held, root, tables);
      var z := AllocateTable();
      if z == 0 { return ENOMEM, tables; }
      Splits(old(mem), old(held), root, tables, p, i, user, z);
      var table := ZeroTable();
      for j := 0 to ENTRIES
        invariant |table| == ENTRIES && forall k :: 0 <= k < j ==> table[k] == SplitEntry(was, k)
      {
        table := table[j := SplitEntry(was, j)];
      }
      assert table == SplitTable(was);
      mem := mem[z := table];
      assert mem == old(mem)[z := table] && t != z;
      SetEntry(t, i, TableEntry(z, was.user));
      SetEntry(t, i, Granting(mem[t][i], user));
      assert mem[t] == old(mem)[t][i := SplitParent(was, z, user)];
      assert mem == WithTable(old(mem), t, i, SplitParent(was, z, user), z, SplitTable(was));
      Grows(held - {z}, tables, p + [i], z);
      return 0, tables[p + [i] := z];
    }

    /** The first two levels of a mapping. */
    method Reach(root: nat, virt: nat, user: bool, ghost tables: Tables) returns (r: int, pd: nat, ghost more: Tables)
      requires Rooted(mem, held, root, tables)
      modifies this
      ensures Rooted(mem, held, root, more) && SamePages(old(mem), mem, root) && SameElsewhere(old(mem), mem, tables)
      ensures Grown(old(held), held, tables, more) && SameLarge(old(mem), mem, root)
      ensures r == 0 || r == ENOTSUP || (r == ENOMEM && Refused())
      ensures r == ENOTSUP <==> IsPage(PathOf(virt)) && Gigantic(old(mem), root, PathOf(virt))
      ensures r == 0 ==> [PathOf(virt)[0], PathOf(virt)[1]] in more && more[[PathOf(virt)[0], PathOf(virt)[1]]] == pd
      ensures r == 0 ==> OpenTo(mem, more, PathOf(virt), 2, user)
      ensures Extends(tables, more) && PartWidened(old(mem), tables, mem, PathOf(virt), user, 2)
      ensures r == 0 ==> Widened(old(mem), tables, mem, PathOf(virt), user, 2)
      ensures r == 0 ==> SameBars(old(mem), tables, mem, more, PathOf(virt))
    {
      hide Rooted, SamePages, SameElsewhere, SameLarge, Gigantic, Directory, Grown, OpenTo, OnlyTable, Extends;
      hide NewEmpty, SameBars, Widened, OnlyEntry, Became;
      SamePath(virt, virt);
      ghost var w := PathOf(virt);
      var i4, i3 := virt / 0x80_0000_0000 % ENTRIES, virt / 0x4000_0000 % ENTRIES;
      var pdpt;
      RootAt(mem, held, root, tables);
      TableAt(mem, held, root, tables, []);
      ChildAt(mem, held, root, tables, [], i4);
      DirectoryAt(mem, held, root, tables, w);
      KeysHeld(mem, held, root, tables);
      assert [] + [i4] == [i4];
      OpenStart(mem, tables, w, user);
      WidenedStart(mem, held, root, tables, w, user);
      r, pdpt, more := Enter(root, tables, [], root, i4, user);
      pd := 0;
      if r < 0 { return; }
      assert w[..0] == [] && w[..1] == [i4];
      OpenNext(old(mem), mem, old(held), root, tables, more, w, 0, user);
      BarsHere(old(mem), mem, old(held), root, tables, more, w, 0);
      ExtendsSelf(tables);
      WidenedNext(old(mem), tables, old(mem), old(held), root, tables, mem, w, user, 0);
      ghost var mid, midHeld, midTables := mem, held, more;
      TableAt(mem, held, root, more, [i4]);
      DirectoryAt(mem, held, root, more, w);
      LinkedAt(mem, held, root, more, [i4]);
      LargeAt(old(mem), mem, root, w);
      if mem[pdpt][i3].present && mem[pdpt][i3].huge { return ENOTSUP, 0, more; }
      r, pd, more := Enter(root, more, [i4], pdpt, i3, user);
      assert [i4] + [i3] == [i4, i3];
      OpenNext(mid, mem, midHeld, root, midTables, more, w, 1, user);
      if r == 0 {
        BarsHere(mid, mem, midHeld, root, midTables, more, w, 1);
        BarsThen(old(mem), tables, mid, midTables, mem, more, w);
        WidenedNext(old(mem), tables, mid, midHeld, root, midTables, mem, w, user, 1);
      }
      ExtendsThen(tables, midTables, more);
      Chain(old(mem), mid, mem, old(held), midHeld, held, root, tables, midTables, more);
    }

    /** arch_paging_map: the page translates to the frame; every other page keeps
        its translation, on success and on failure, unless a 2 MiB page with a
        misaligned entry had to be split. */
    method Map(root: nat, virt: nat, phys: nat, flags: Flags, ghost tables: Tables) returns (r: int, ghost more: Tables)
      requires Rooted(mem, held, root, tables)
      modifies this
      ensures Rooted(mem, held, root, more) && SameElsewhere(old(mem), mem, tables)
      ensures Grown(old(held), held, tables, more)
      ensures IsPage(PathOf(virt))
      ensures r == 0 ==>
        Walk(mem, root, PathOf(virt)) == Some(Leaf(phys / 0x1000 % FRAMES, flags.writable, flags.user, flags.nocache,
          false, if flags.executable then 0 else NO_EXECUTE, 0))
      ensures r == 0 ==> OpenTo(mem, more, PathOf(virt), 3, flags.user)
      ensures r == 0 ==>
        (Executable(mem, root, more, PathOf(virt)) <==> flags.executable && !Barred(old(mem), tables, PathOf(virt)))
      ensures r == 0 ==> Widened(old(mem), tables, mem, PathOf(virt), flags.user, 4)
      ensures r != 0 ==> PartWidened(old(mem), tables, mem, PathOf(virt), flags.user, 3)
      ensures r == 0 ==> SameOutside(old(mem), mem, root, PathOf(virt)[..3])
      ensures r == 0 ==> (SameOutside(old(mem), mem, root, PathOf(virt)) <==> SplitSafe(old(mem), root, PathOf(virt)))
      ensures r != 0 ==> SamePages(old(mem), mem, root)
      ensures r == ENOTSUP <==> Gigantic(old(mem), root, PathOf(virt))
      ensures r == 0 || r == ENOTSUP || (r == ENOMEM && Refused())
    {
      hide Rooted, SamePages, SameElsewhere, SameOutside, SameLarge, Walk, Gigantic, Directory, Grown, AllMoved, OpenTo;
      hide OnlyTable, OnlyEntry, Extends, NewEmpty, SameBars, Barred, Widened, Became, PartWidened;
      SamePath(virt, virt);
      ghost var w := PathOf(virt);
      var i2, i1 := virt / 0x20_0000 % ENTRIES, virt / 0x1000 % ENTRIES;
      ghost var p2, p3 := [w[0], w[1]], [w[0], w[1], w[2]];
      assert w[..3] == p3 && p2 + [i2] == p3 && p3 + [i1] == w;
      KeysHeld(mem, held, root, tables);
      var pd;
      r, pd, more := Reach(root, virt, flags.user, tables);
      PartMore(old(mem), tables, mem, w, flags.user, 2);
      if r < 0 { return; }
      ghost var mem2, held2, more2 := mem, held, more;
      TableAt(mem, held, root, more, p2);
      DirectoryAt(mem, held, root, more, w);
      LinkedAt(mem, held, root, more, p2);
      LargeAt(old(mem), mem, root, w);
      var pt;
      r, pt, more := ReachTable(root, more, p2, pd, i2, flags.user);
      Chain(old(mem), mem2, mem, old(held), held2, held, root, tables, more2, more);
      if r < 0 { return; }
      ghost var mem3 := mem;
      assert w[..2] == p2;
      OpenNext(mem2, mem, held2, root, more2, more, w, 2, flags.user);
      BarsHere(mem2, mem, held2, root, more2, more, w, 2);
      BarsThen(old(mem), tables, mem2, more2, mem, more, w);
      WidenedNext(old(mem), tables, mem2, held2, root, more2, mem, w, flags.user, 2);
      ExtendsThen(tables, more2, more);
      TableAt(mem, held, root, more, p3);
      Leaves(mem, held, root, more, p3, i1, Native(phys / 0x1000, flags));
      SetEntry(pt, i1, Native(phys / 0x1000, flags));
      PutOnly(mem3, pt, i1, Native(phys / 0x1000, flags), more);
      OpenNext(mem3, mem, held, root, more, more, w, 3, flags.user);
      assert NewEmpty(mem, more, more) by { NothingNew(mem, more); }
      BarsNext(mem3, mem, held, root, more, more, w, 3);
      BarsThen(old(mem), tables, mem3, more, mem, more, w);
      WidenedNext(old(mem), tables, mem3, held, root, more, mem, w, flags.user, 3);
      BarsSame(old(mem), tables, mem, more, w);
      SameGrown(held, more);
      Chain(old(mem), mem3, mem, old(held), held, held, root, tables, more, more);
      Join(old(mem), mem2, mem3, mem, root, p3, w);
    }

    /** The third level: a split, a new table, or the flags on the old one. */
    method ReachTable(ghost root: nat, ghost tables: Tables, ghost p: Path, pd: nat, i: nat, user: bool)
      returns (r: int, pt: nat, ghost more: Tables)
      requires Rooted(mem, held, root, tables) && p in tables && tables[p] == pd && |p| == 2 && i < ENTRIES
      requires pd in mem && |mem[pd]| == ENTRIES
      modifies this
      ensures r == 0 || (r == ENOMEM && Refused() && mem == old(mem))
      ensures Rooted(mem, held, root, more) && SameElsewhere(old(mem), mem, tables)
      ensures Grown(old(held), held, tables, more)
      ensures SameOutside(old(mem), mem, root, p + [i])
      ensures var e := old(mem)[pd][i]; r != 0 || (e.huge && e.present ==> e.frame % ENTRIES == 0) ==>
        SamePages(old(mem), mem, root)
      ensures var e := old(mem)[pd][i]; r == 0 && e.huge && e.present && e.frame % ENTRIES != 0 ==> AllMoved(old(mem),
          mem, root, p + [i])
      ensures r == 0 ==> p + [i] in more && more[p + [i]] == pt
      ensures Extends(tables, more) && OnlyTable(old(mem), mem, pd) && OnlyEntry(old(mem), mem, pd, i)
      ensures r == 0 ==> pd in mem && i < |mem[pd]| && Became(old(mem)[pd][i], mem[pd][i], user, true)
      ensures r == 0 ==>
        pd in mem && i < |mem[pd]| && Opens(mem[pd][i], user) && (Bars(mem[pd][i]) <==> Bars(old(mem)[pd][i]))
      ensures NewEmpty(mem, tables, more)
    {
      hide Rooted, SamePages, SameElsewhere, SameOutside, SameLarge, Grown, AllMoved, Extends, OnlyTable;
      hide OnlyEntry, NewEmpty;
      if mem[pd][i].huge {
        r, more := Split(root, tables, p, pd, i, user);
        if r < 0 { return r, 0, more; }
        return r, mem[pd][i].frame, more;
      } else {
        r, pt, more := Enter(root, tables, p, pd, i, user);
        Outside(old(mem), mem, root, p + [i]);
        return r, pt, more;
      }
    }

    /** arch_paging_unmap: the page has no translation, every other page keeps its own. */
    method Unmap(root: nat, virt: nat, ghost tables: Tables) returns (r: int)
      requires Rooted(mem, held, root, tables)
      modifies this`mem
      ensures Rooted(mem, held, root, tables) && SameElsewhere(old(mem), mem, tables) && IsPage(PathOf(virt))
      ensures r == 0 ==> Walk(mem, root, PathOf(virt)) == None && SameOutside(old(mem), mem, root, PathOf(virt))
      ensures r != 0 ==> r == ENOENT && mem == old(mem)
      ensures r == 0 <==> PathOf(virt)[..3] in tables
    {
      hide Rooted, SameElsewhere, SameOutside, Walk;
      SamePath(virt, virt);
      Refl(mem, root, tables);
      ghost var w := PathOf(virt);
      var i4, i3 := virt / 0x80_0000_0000 % ENTRIES, virt / 0x4000_0000 % ENTRIES;
      var i2, i1 := virt / 0x20_0000 % ENTRIES, virt / 0x1000 % ENTRIES;
      ghost var p1, p2, p3 := [i4], [i4, i3], [i4, i3, i2];
      assert w[..3] == p3 && [] + [i4] == p1 && p1 + [i3] == p2 && p2 + [i2] == p3 && p3 + [i1] == w;
      Ancestors(mem, held, root, tables, i4, i3, i2);
      RootAt(mem, held, root, tables);
      TableAt(mem, held, root, tables, []);
      ChildAt(mem, held, root, tables, [], i4);
      var e4 := mem[root][i4];
      if !e4.present { return ENOENT; }
      TableAt(mem, held, root, tables, p1);
      ChildAt(mem, held, root, tables, p1, i3);
      var e3 := mem[e4.frame][i3];
      if !e3.present || e3.huge { return ENOENT; }
      TableAt(mem, held, root, tables, p2);
      ChildAt(mem, held, root, tables, p2, i2);
      var e2 := mem[e3.frame][i2];
      if !e2.present || e2.huge { return ENOENT; }
      TableAt(mem, held, root, tables, p3);
      Leaves(mem, held, root, tables, p3, i1, Zero());
      SetEntry(e2.frame, i1, Zero());
      return 0;
    }

    // ----- destroying -----

    /** pmm_free_frame: only a frame in use can be freed. */
    method FreeFrame(f: nat)
      requires f in held
      modifies this`held
      ensures held == old(held) - {f}
    {
      held := held - {f};
    }

    /** destroy_level: each table at or below a position is freed exactly once. */
    method DestroyLevel(t: nat, level: nat, ghost base: Path, ghost tables: Tables, ghost p: Path)
      requires Tree(mem, base, tables) && p in tables && tables[p] == t && 1 <= level && |p| + level == 4
      requires Under(tables, p) <= held
      modifies this`held
      ensures held == old(held) - Under(tables, p)
      decreases level
    {
      hide Shaped, Under, UnderFirst;
      UnderAll(base, tables, p);
      if level > 1 {
        assert Linked(mem, tables, p);
        for i := 0 to ENTRIES
          invariant held == old(held) - UnderFirst(tables, p, i)
        {
          var e := mem[t][i];
          assert Link(mem, tables, p, i);
          UnderNext(base, tables, p, i);
          if e.present && !e.huge { DestroyLevel(e.frame, level - 1, base, tables, p + [i]); }
        }
      }
      FreeFrame(t);
    }

    /** arch_paging_destroy_root: all frames of the tree come back, and no others. */
    method DestroyRoot(root: nat, ghost tables: Tables)
      requires root != 0 && root != kernelRoot ==> Rooted(mem, held, root, tables)
      modifies this`held, this`mem
      ensures root == 0 || root == kernelRoot ==> held == old(held) && mem == old(mem)
      ensures root != 0 && root != kernelRoot ==> held == old(held) - tables.Values
      ensures root != 0 && root != kernelRoot ==> forall t :: t in mem <==> t in old(mem) && t !in tables.Values
      ensures forall t :: t in mem ==> t in old(mem) && mem[t] == old(mem)[t]
    {
      if root != 0 && root != kernelRoot {
        WholeTree(mem, held, root, tables);
        DestroyLevel(root, 4, [], tables, []);
        mem := map t | t in mem && t in held :: mem[t];
      }
    }

    // ----- cloning -----

    /** clone_level: a subtree of fresh tables under which every page translates
        as under the old one. One frame is asked for per table, in the order of the
        visit; the clone fails exactly if one is refused, and then the frames of all
        tables copied so far stay taken, but for those above the refused one. */
    method CloneLevel(t: nat, level: nat, ghost tables: Tables, ghost p: Path)
      returns (z: nat, ghost copy: Tables, ghost k: nat)
      requires Tree(mem, [], tables) && p in tables && tables[p] == t && 1 <= level && |p| + level == 4
      requires mem.Keys <= held && Words(mem)
      modifies this
      ensures z != 0 ==> Cloning(old(mem), mem, old(held), held, tables, p, copy, z, ENTRIES, answer, old(asked), asked)
      ensures z == 0 ==> CloneFailed(old(mem), mem, old(held), held, tables, p, answer, old(asked), asked, k)
      decreases level, 1
    {
      hide Tree, Words, Kept, Copied, Filling, AllGranted, Granted, Given, Lost, Visit, VisitBelow, Refuses, Cloning;
      hide CloneFailed;
      ghost var from := asked;
      z := AllocateTable();
      copy, k := map[], 0;
      FirstRequest(answer, old(held), tables, p, from, z);
      CloneStart(old(mem), mem, tables, p, z);
      if z == 0 {
        FailsAtOnce(mem, held, tables, p, answer, from);
        return;
      }
      copy := map[p := z];
      CloneBegin(old(mem), mem, old(held), held, tables, p, z, answer, from);
      var i := 0;
      while i < ENTRIES
        invariant 0 <= i <= ENTRIES
        invariant Cloning(old(mem), mem, old(held), held, tables, p, copy, z, i, answer, from, asked) && z != 0
      {
        CloneEntry(old(mem), mem, old(held), held, tables, p, copy, z, i, answer, from, asked);
        var e := mem[t][i];
        if !e.present || level == 1 || e.huge {
          PlainNext(old(mem), mem, old(held), held, tables, p, copy, z, i, answer, from, asked);
          SetEntry(z, i, e);
        } else {
          var c;
          c, copy, k := CloneChild(t, i, level, z, old(mem), old(held), tables, p, copy, from);
          if c == 0 { return 0, copy, k; }
        }
        i := i + 1;
      }
    }

    /** An entry that leads to a table: the table is copied, or the one being filled goes
        back. */
    method CloneChild(t: nat, i: nat, level: nat, z: nat, ghost was: Memory, ghost before: set<nat>,
                      ghost tables: Tables, ghost p: Path,
                      ghost copy: Tables, ghost from: nat) returns (c: nat, ghost more: Tables, ghost k: nat)
      requires Cloning(was, mem, before, held, tables, p, copy, z, i, answer, from, asked) && Tree(was, [], tables)
      requires i < ENTRIES
      requires 1 < level && |p| + level == 4 && p in tables && tables[p] == t && t in mem && |mem[t]| == ENTRIES
      requires IsTable(mem[t][i])
      modifies this
      ensures c != 0 ==> Cloning(was, mem, before, held, tables, p, more, z, i + 1, answer, from, asked)
      ensures c == 0 ==> CloneFailed(was, mem, before, held, tables, p, answer, from, asked, k)
      decreases level, 0
    {
      hide Tree, Words, Kept, Copied, Filling, AllGranted, Granted, Given, Lost, Visit, VisitBelow, Refuses, Cloning;
      hide CloneFailed;
      CloneEntry(was, mem, before, held, tables, p, copy, z, i, answer, from, asked);
      var e := mem[t][i];
      ghost var mid, midHeld, at := mem, held, asked;
      ghost var child, n;
      c, child, n := CloneLevel(e.frame, level - 1, tables, p + [i]);
      if c == 0 {
        ChildFails(was, mid, mem, before, midHeld, held, tables, p, copy, z, i, answer, from, at, asked, n);
        c := Abandon(z);
        return c, copy, at - from + n;
      }
      ChildNext(was, mid, mem, before, midHeld, held, tables, p, copy, z, i, answer, from, at, asked, c, child);
      SetEntry(z, i, e.(frame := c));
      return c, copy + child, 0;
    }

    /** arch_paging_create_root: a new root that translates every page as the
        kernel's does, on tables nobody used; on failure every old table is as it was,
        and the frames that stay taken are those a failed clone does not give back. */
    method CreateRoot(ghost tables: Tables) returns (root: nat, ghost copy: Tables, ghost k: nat)
      requires Rooted(mem, held, kernelRoot, tables)
      modifies this
      ensures Rooted(mem, held, kernelRoot, tables) && Kept(old(mem), mem)
      ensures root != 0 ==> Rooted(mem, held, root, copy) && root != kernelRoot
      ensures root != 0 ==> copy.Values !! old(held) && held == old(held) + copy.Values
      ensures root != 0 ==> forall w :: IsPage(w) ==> Walk(mem, root, w) == Walk(old(mem), kernelRoot, w)
      ensures root != 0 ==> Mirrors(old(mem), tables, mem, copy)
      ensures root != 0 ==>
        forall w :: IsPage(w) ==> (Executable(mem, root, copy, w) <==> Executable(old(mem), kernelRoot, tables, w))
      ensures root != 0 <==> AllGranted(answer, old(held), old(asked), old(asked) + |Visit(tables, [])|)
      ensures root == 0 ==> k < |Visit(tables, [])| && AllGranted(answer, old(held), old(asked), old(asked) + k)
      ensures root == 0 ==> !Granted(answer, old(held), old(asked), old(asked) + k) && asked == old(asked) + k + 1
      ensures root == 0 ==> held == old(held) + Lost(answer, Visit(tables, []), old(asked), k)
    {
      hide Tree, Words, Copied, Kept, Granted, Lost, Visit, Given, Cloning, Alike, Mirrors;
      hide Executable, Walk;
      RootAt(mem, held, kernelRoot, tables);
      root, copy, k := CloneLevel(kernelRoot, 4, tables, []);
      if root != 0 { CloneEnd(old(mem), mem, old(held), held, tables, [], copy, root, answer, old(asked), asked); }
      KernelKept(old(mem), mem, old(held), held, kernelRoot, tables);
      if root != 0 {
        assert root in copy.Values;
        assert SmallRoot(mem, root);
        MirrorMade(old(mem), tables, mem, copy);
        RootCopied(old(mem), mem, old(held), held, kernelRoot, tables, root, copy);
        forall w | IsPage(w) ensures Executable(mem, root, copy, w) <==> Executable(old(mem), kernelRoot, tables, w) {
          MirrorOpens(old(mem), kernelRoot, tables, mem, root, copy, w);
        }
      }
    }

    /** The destination of a failed clone goes back; subtrees already copied do not. */
    method Abandon(z: nat) returns (none: nat)
      requires z in held && z in mem && mem.Keys <= held && Words(mem)
      modifies this`held, this`mem
      ensures none == 0 && held == old(held) - {z} && mem == old(mem) - {z} && mem.Keys <= held && Words(mem)
    {
      FreeFrame(z);
      mem := mem - {z};
      return 0;
    }
  }

  /** The copy of an entry: the same but for the frame, if that is a table of the tree. */
  ghost predicate EntryLike(a: Entry, b: Entry, depth: nat) {
    if depth < 3 && IsTable(a) then b == a.(frame := b.frame) else b == a
  }

  ghost predicate AlikeAt(was: Memory, tables: Tables, mem: Memory, copy: Tables, q: Path, j: nat) {
    && q in tables && q in copy && tables[q] in was && copy[q] in mem
    && j < |was[tables[q]]| && j < |mem[copy[q]]|
    && EntryLike(was[tables[q]][j], mem[copy[q]][j], |q|)
  }

  /** Every entry of every table copied is like the old one, those of the table being filled up to a number. */
  ghost predicate Alike(was: Memory, tables: Tables, mem: Memory, copy: Tables, p: Path, n: nat) {
    forall q, j :: q in copy && 0 <= j < ENTRIES && (q == p ==> j < n) ==> AlikeAt(was, tables, mem, copy, q, j)
  }

  lemma PlainAlike(was: Memory, tables: Tables, mem: Memory, copy: Tables, p: Path, i: nat)
    requires Alike(was, tables, mem, copy, p, i) && Tree(mem, p, copy) && p in tables && i < ENTRIES
    requires tables[p] in was && i < |was[tables[p]]| && copy[p] in mem && i < |mem[copy[p]]|
    requires |p| == 3 || !IsTable(was[tables[p]][i])
    ensures Alike(was, tables, Put(mem, copy[p], i, was[tables[p]][i]), copy, p, i + 1)
  {
    var now := Put(mem, copy[p], i, was[tables[p]][i]);
    forall q, j | q in copy && 0 <= j < ENTRIES && (q == p ==> j < i + 1)
      ensures AlikeAt(was, tables, now, copy, q, j)
    {
      if q != p || j != i { assert AlikeAt(was, tables, mem, copy, q, j); }
    }
  }

  lemma ChildAlike(was: Memory, mid: Memory, now: Memory, tables: Tables, p: Path, copy: Tables, i: nat, c: nat,
                   child: Tables)
    requires Alike(was, tables, mid, copy, p, i) && Tree(mid, p, copy) && Tree(was, [], tables) && p in tables
    requires |p| < 3 && i < ENTRIES
    requires Alike(mid, tables, now, child, p + [i], ENTRIES) && Kept(was, mid) && Kept(mid, now)
    requires copy.Values <= mid.Keys && child.Values !! mid.Keys && copy.Keys !! child.Keys
    requires tables[p] in was && i < |was[tables[p]]| && copy[p] in now && i < |now[copy[p]]|
    requires IsTable(was[tables[p]][i])
    ensures Alike(was, tables, Put(now, copy[p], i, was[tables[p]][i].(frame := c)), copy + child, p, i + 1)
  {
    var later, all := Put(now, copy[p], i, was[tables[p]][i].(frame := c)), copy + child;
    forall q, j | q in all && 0 <= j < ENTRIES && (q == p ==> j < i + 1)
      ensures AlikeAt(was, tables, later, all, q, j)
    {
      if q in child {
        assert AlikeAt(mid, tables, now, child, q, j);
        OldTable(was, mid, tables, q);
        assert child[q] in child.Values && copy[p] in copy.Values;
      } else if q != p || j != i {
        assert AlikeAt(was, tables, mid, copy, q, j);
        assert copy[q] in copy.Values;
      }
    }
  }

  /** Two trees of tables of the same form, entry by entry the same but for the frames of the tables themselves. */
  ghost predicate Mirrors(was: Memory, tables: Tables, mem: Memory, copy: Tables) {
    copy.Keys == tables.Keys && forall q, j :: q in tables && 0 <= j < ENTRIES ==> AlikeAt(was, tables, mem, copy, q, j)
  }

  lemma {:induction false} SameKey(was: Memory, tables: Tables, mem: Memory, copy: Tables, q: Path)
    requires Tree(was, [], tables) && Tree(mem, [], copy) && Alike(was, tables, mem, copy, [], ENTRIES)
    ensures q in tables <==> q in copy
    decreases |q|
  {
    if q != [] {
      var r, j := q[..|q| - 1], q[|q| - 1];
      assert q == r + [j];
      if q in tables || q in copy {
        assert q in tables ==> Place([], tables, q);
        assert q in copy ==> Place([], copy, q);
      }
      SameKey(was, tables, mem, copy, r);
      if r in tables && |r| < 3 && j < ENTRIES {
        assert AlikeAt(was, tables, mem, copy, r, j);
        assert Linked(was, tables, r) && Link(was, tables, r, j);
        assert Linked(mem, copy, r) && Link(mem, copy, r, j);
      }
    }
  }

  lemma MirrorMade(was: Memory, tables: Tables, mem: Memory, copy: Tables)
    requires Tree(was, [], tables) && Tree(mem, [], copy) && Alike(was, tables, mem, copy, [], ENTRIES)
    ensures Mirrors(was, tables, mem, copy)
  {
    hide Tree, AlikeAt;
    forall q ensures q in tables <==> q in copy { SameKey(was, tables, mem, copy, q); }
  }

  /** What a mirror does for a page: code runs where it did, and no table on the way grants more or less. */
  lemma MirrorOpens(was: Memory, root: nat, tables: Tables, mem: Memory, z: nat, copy: Tables, w: Path)
    requires Mirrors(was, tables, mem, copy) && IsPage(w) && Walk(mem, z, w) == Walk(was, root, w)
    ensures Executable(mem, z, copy, w) <==> Executable(was, root, tables, w)
  {
    hide Walk;
    forall m | 0 <= m < 3 ensures BarsAt(mem, copy, w, m) <==> BarsAt(was, tables, w, m) {
      if w[..m] in tables { assert AlikeAt(was, tables, mem, copy, w[..m], w[m]); }
    }
  }

  /** A clone after so many entries: the tree built so far, what it translates, and the
      frames asked for. */
  ghost predicate Cloning(was: Memory, mem: Memory, before: set<nat>, held: set<nat>, tables: Tables, p: Path,
                          copy: Tables, z: nat, i: nat,
                          answer: nat -> nat, from: nat, asked: nat)
  {
    && Kept(was, mem) && mem.Keys <= held && Words(mem) && p in tables && tables[p] in was && |p| <= 3
    && Tree(mem, p, copy) && p in copy && copy[p] == z && z in mem && z == answer(from) && 0 != z < FRAMES && z !in was
    && copy.Values !! before && held == before + copy.Values
    && Copied(was, tables[p], mem, z, 4 - |p|, i) && Filling(was[tables[p]], mem[z], i)
    && Alike(was, tables, mem, copy, p, i)
    && asked == from + 1 + |VisitBelow(tables, p, i)| && AllGranted(answer, before, from, asked) &&
      held == before + Given(answer, from, asked)
  }

  lemma CloneBegin(was: Memory, mem: Memory, before: set<nat>, held: set<nat>, tables: Tables, p: Path, z: nat,
                   answer: nat -> nat, from: nat)
    requires Kept(was, mem) && was.Keys <= before && Words(mem) && p in tables && tables[p] in was && |p| <= 3
    requires z == answer(from) && 0 != z < FRAMES && z !in before && held == before + {z}
    requires mem == was[z := ZeroTable()]
    requires Tree(mem, p, map[p := z]) && Copied(was, tables[p], mem, z, 4 - |p|, 0)
    requires Filling(was[tables[p]], mem[z], 0)
    requires VisitBelow(tables, p, 0) == [] && AllGranted(answer, before, from, from + 1)
    requires Given(answer, from, from + 1) == {z}
    ensures Cloning(was, mem, before, held, tables, p, map[p := z], z, 0, answer, from, from + 1)
  {
    hide Tree, Words, Kept, Copied, Filling,  AllGranted, Given, VisitBelow;
  }

  /** The entry to copy next is the old one. */
  lemma CloneEntry(was: Memory, mem: Memory, before: set<nat>, held: set<nat>, tables: Tables, p: Path, copy: Tables,
                   z: nat, i: nat,
                   answer: nat -> nat, from: nat, asked: nat)
    requires Cloning(was, mem, before, held, tables, p, copy, z, i, answer, from, asked) && Tree(was, [], tables)
    requires i < ENTRIES
    ensures p in tables && tables[p] in was && tables[p] in mem && |was[tables[p]]| == ENTRIES
    ensures mem[tables[p]] == was[tables[p]]
    ensures z in mem && |mem[z]| == ENTRIES
    ensures |p| < 3 ==> Tree(mem, [], tables) && (IsTable(mem[tables[p]][i]) <==> p + [i] in tables)
    ensures |p| < 3 && IsTable(mem[tables[p]][i]) ==>
      tables[p + [i]] == mem[tables[p]][i].frame && mem.Keys <= held && Words(mem)
  {
    hide Tree, Words, Kept, Copied, Filling, Alike,  AllGranted, Given, VisitBelow;
    OldTable(was, mem, tables, p);
    FillAt(was[tables[p]], mem[z], i);
    if |p| < 3 {
      SourceTree(was, mem, tables, p, i);
      Child(was, tables, p, i);
    }
  }

  lemma PlainNext(was: Memory, mem: Memory, before: set<nat>, held: set<nat>, tables: Tables, p: Path, copy: Tables,
                  z: nat, i: nat,
                  answer: nat -> nat, from: nat, asked: nat)
    requires Cloning(was, mem, before, held, tables, p, copy, z, i, answer, from, asked) && Tree(was, [], tables)
    requires i < ENTRIES
    requires tables[p] in was && |was[tables[p]]| == ENTRIES && (|p| == 3 || !IsTable(was[tables[p]][i]))
    ensures z in mem && i < |mem[z]|
    ensures Cloning(was, Put(mem, z, i, was[tables[p]][i]), before, held, tables, p, copy, z, i + 1, answer, from,
                    asked)
  {
    hide Tree, Words, Kept, Copied, Filling, AllGranted, Given, VisitBelow;
    OldTable(was, mem, tables, p);
    FillAt(was[tables[p]], mem[z], i);
    BelowNext(tables, p, i);
    if |p| < 3 { Child(was, tables, p, i); }
    PlainStep(was, mem, p, copy, tables[p], z, i);
    PlainAlike(was, tables, mem, copy, p, i);
    FillNext(was[tables[p]], mem[z], i, was[tables[p]][i]);
  }

  lemma ChildNext(was: Memory, mid: Memory, now: Memory, before: set<nat>, midHeld: set<nat>, held: set<nat>,
                  tables: Tables,
                  p: Path, copy: Tables,
                  z: nat, i: nat, answer: nat -> nat, from: nat, at: nat, asked: nat, c: nat, child: Tables)
    requires Cloning(was, mid, before, midHeld, tables, p, copy, z, i, answer, from, at) && Tree(was, [], tables)
    requires i < ENTRIES && |p| < 3
    requires tables[p] in was && |was[tables[p]]| == ENTRIES && IsTable(was[tables[p]][i]) && p + [i] in tables
    requires tables[p + [i]] == was[tables[p]][i].frame
    requires Cloning(mid, now, midHeld, held, tables, p + [i], child, c, ENTRIES, answer, at, asked)
    ensures z in now && i < |now[z]|
    ensures Cloning(was, Put(now, z, i, was[tables[p]][i].(frame := c)), before, held, tables, p, copy + child, z,
                    i + 1, answer, from, asked)
  {
    hide Tree, Words, Copied, Filling, AllGranted, Given, VisitBelow, Visit;
    VisitOf(tables, p + [i]);
    OldTable(was, mid, tables, p);
    FillAt(was[tables[p]], mid[z], i);
    FreshTable(was, mid, now, z);
    BelowNext(tables, p, i);
    TreeValues(mid, p, copy);
    ChildStep(was, mid, now, tables, p, copy, z, i, c, child);
    FillNext(was[tables[p]], now[z], i, was[tables[p]][i].(frame := c));
    MergeValues(copy, child);
    ChildAlike(was, mid, now, tables, p, copy, i, c, child);
    GrantedMore(answer, before, from, at, asked);
    GivenSplit(answer, from, at, asked);
  }

  /** A clone that failed at a request: the old tables are as they were, every request
      before was granted, and the frames lost are still taken. */
  ghost predicate CloneFailed(was: Memory, mem: Memory, before: set<nat>, held: set<nat>, tables: Tables, p: Path,
                              answer: nat -> nat, from: nat, asked: nat, k: nat)
  {
    && Kept(was, mem) && mem.Keys <= held && Words(mem) && asked == from + k + 1 && k < |Visit(tables, p)|
    && AllGranted(answer, before, from, from + k) && !Granted(answer, before, from, from + k)
    && held == before + Lost(answer, Visit(tables, p), from, k)
  }

  lemma FailsAtOnce(mem: Memory, held: set<nat>, tables: Tables, p: Path, answer: nat -> nat, from: nat)
    requires mem.Keys <= held && Words(mem) && |Visit(tables, p)| > 0 && !Granted(answer, held, from, from)
    requires AllGranted(answer, held, from, from) && Lost(answer, Visit(tables, p), from, 0) == {}
    ensures CloneFailed(mem, mem, held, held, tables, p, answer, from, from + 1, 0)
  {
    hide Visit, AllGranted, Granted, Lost, Words;
  }

  lemma ChildFails(was: Memory, mid: Memory, now: Memory, before: set<nat>, midHeld: set<nat>, held: set<nat>,
                   tables: Tables,
                   p: Path, copy: Tables,
                   z: nat, i: nat, answer: nat -> nat, from: nat, at: nat, asked: nat, n: nat)
    requires Cloning(was, mid, before, midHeld, tables, p, copy, z, i, answer, from, at) && i < ENTRIES && |p| < 3
    requires p + [i] in tables
    requires CloneFailed(mid, now, midHeld, held, tables, p + [i], answer, at, asked, n)
    ensures z in held && z in now && now.Keys <= held && Words(now) && from <= at
    ensures CloneFailed(was, now - {z}, before, held - {z}, tables, p, answer, from, asked, at - from + n)
  {
    hide Tree, Copied, Filling, AllGranted, Given, VisitBelow, Visit, Granted, Lost;
    ChildLost(answer, tables, p, i, before, from, at, n);
    GrantedMore(answer, before, from, at, at + n);
    GrantedOn(answer, before, from, at, at + n);
  }

  lemma CloneEnd(was: Memory, mem: Memory, before: set<nat>, held: set<nat>, tables: Tables, p: Path, copy: Tables,
                 z: nat,
                 answer: nat -> nat, from: nat, asked: nat)
    requires Cloning(was, mem, before, held, tables, p, copy, z, ENTRIES, answer, from, asked)
    ensures Kept(was, mem) && mem.Keys <= held && Words(mem) && p in tables && tables[p] in was
    ensures Tree(mem, p, copy) && p in copy && copy[p] == z && z in mem && z < FRAMES && |p| <= 3
    ensures copy.Values !! before && held == before + copy.Values
    ensures Copied(was, tables[p], mem, z, 4 - |p|, ENTRIES) && Filling(was[tables[p]], mem[z], ENTRIES)
    ensures Alike(was, tables, mem, copy, p, ENTRIES)
    ensures asked == from + |Visit(tables, p)| && AllGranted(answer, before, from, asked)
    ensures held == before + Given(answer, from, asked)
  {
    hide Tree, Words, Kept, Copied, Filling, Alike,  AllGranted, Given, VisitBelow, Visit;
    VisitOf(tables, p);
  }

  /** The first request of a clone, for the table at the top. */
  lemma FirstRequest(answer: nat -> nat, held: set<nat>, tables: Tables, p: Path, from: nat, z: nat)
    requires z == 0 <==> Refuses(answer(from), held)
    requires z != 0 ==> z == answer(from)
    ensures |Visit(tables, p)| > 0 && VisitBelow(tables, p, 0) == []
    ensures AllGranted(answer, held, from, from) && Lost(answer, Visit(tables, p), from, 0) == {}
    ensures z == 0 ==> !Granted(answer, held, from, from)
    ensures z != 0 ==> AllGranted(answer, held, from, from + 1) && Given(answer, from, from + 1) == {z}
  {
    hide VisitBelow;
    BelowNext(tables, p, 0);
    assert Given(answer, from, from) == {} && held + {} == held;
  }

  lemma KernelKept(mem: Memory, now: Memory, held: set<nat>, held': set<nat>, root: nat, tables: Tables)
    requires Rooted(mem, held, root, tables) && Kept(mem, now) && now.Keys <= held' && Words(now)
    ensures Rooted(now, held', root, tables)
  {
    forall q | q in tables ensures tables[q] in mem && tables[q] in now && now[tables[q]] == mem[tables[q]] {
      OldTable(mem, now, tables, q);
    }
    TreeAgree(mem, now, [], tables);
  }

  /** A cloned root has no large pages either: it leads where the old root led. */
  lemma RootCopied(mem: Memory, now: Memory, held: set<nat>, held': set<nat>, root: nat, tables: Tables, z: nat,
                   copy: Tables)
    requires Rooted(mem, held, root, tables) && Tree(now, [], copy) && [] in copy && copy[[]] == z && now.Keys <= held'
    requires Words(now)
    requires Copied(mem, root, now, z, 4, ENTRIES) && SmallRoot(now, z)
    ensures Rooted(now, held', z, copy) && forall w :: IsPage(w) ==> Walk(now, z, w) == Walk(mem, root, w)
  {
    hide Tree, Walk;
  }

  lemma OldTable(mem: Memory, now: Memory, tables: Tables, p: Path)
    requires Tree(mem, [], tables) && p in tables && Kept(mem, now)
    ensures tables[p] in mem && tables[p] in now && now[tables[p]] == mem[tables[p]] && |mem[tables[p]]| == ENTRIES
  {
    assert Linked(mem, tables, p);
  }

  lemma SourceTree(mem: Memory, now: Memory, tables: Tables, p: Path, i: nat)
    requires Tree(mem, [], tables) && p in tables && Kept(mem, now) && |p| < 3 && i < ENTRIES
    ensures Tree(now, [], tables) && tables[p] in mem && i < |mem[tables[p]]|
    ensures IsTable(mem[tables[p]][i]) ==> p + [i] in tables && tables[p + [i]] == mem[tables[p]][i].frame
  {
    hide Tree;
    forall q | q in tables ensures tables[q] in mem && tables[q] in now && now[tables[q]] == mem[tables[q]] {
      OldTable(mem, now, tables, q);
    }
    TreeAgree(mem, now, [], tables);
    Child(mem, tables, p, i);
  }

  lemma Child(mem: Memory, tables: Tables, p: Path, i: nat)
    requires Tree(mem, [], tables) && p in tables && i < ENTRIES
    ensures tables[p] in mem && |mem[tables[p]]| == ENTRIES
    ensures |p| < 3 ==> (IsTable(mem[tables[p]][i]) <==> p + [i] in tables)
    ensures |p| < 3 && IsTable(mem[tables[p]][i]) ==> tables[p + [i]] == mem[tables[p]][i].frame
  {
    assert Linked(mem, tables, p);
    assert |p| < 3 ==> Link(mem, tables, p, i);
  }

  lemma FreshTable(mem: Memory, mid: Memory, now: Memory, z: nat)
    requires Kept(mem, mid) && Kept(mid, now) && z in mid && z !in mem
    ensures z in now && now[z] == mid[z] && forall t :: t in mem && t in mid ==> t != z && t in now && now[t] == mid[t]
  {
  }

  lemma TreeValues(mem: Memory, base: Path, tables: Tables)
    requires Tree(mem, base, tables)
    ensures tables.Values <= mem.Keys
  {
    forall q | q in tables ensures tables[q] in mem { assert Linked(mem, tables, q); }
  }

  lemma MergeValues(a: Tables, b: Tables)
    requires a.Keys !! b.Keys
    ensures (a + b).Values == a.Values + b.Values
  {
    var all := a + b;
    forall v | v in a.Values ensures v in all.Values {
      var k :| k in a && a[k] == v;
      assert k in all && all[k] == v;
    }
    forall v | v in b.Values ensures v in all.Values {
      var k :| k in b && b[k] == v;
      assert k in all && all[k] == v;
    }
  }

  /** Copying an entry that leads to no table. */
  lemma PlainStep(mem: Memory, now: Memory, p: Path, copy: Tables, t: nat, z: nat, i: nat)
    requires Tree(now, p, copy) && p in copy && copy[p] == z && i < ENTRIES && Words(now)
    requires t in mem && |mem[t]| == ENTRIES && t in now && now[t] == mem[t] && (|p| == 3 || !IsTable(mem[t][i]))
    requires z in now && |now[z]| == ENTRIES && now[z][i] == Zero() && z !in mem && Kept(mem, now)
    requires Copied(mem, t, now, z, 4 - |p|, i)
    ensures var later := Put(now, z, i, mem[t][i]);
      Tree(later, p, copy) && Copied(mem, t, later, z, 4 - |p|, i + 1) && Kept(mem, later) && Words(later)
  {
    hide Tree;
    var e := mem[t][i];
    var later := Put(now, z, i, e);
    CopyBeside(now, p, copy, i, e);
    TreeKeep(now, later, p, copy, p, i);
    forall v | |v| == 4 - |p| && Indices(v) && |v| > 0 && v[0] < i + 1 ensures Walk(later, z, v) == Walk(mem, t, v) {
      if v[0] == i {
        assert Through(later, e, v[1..]) == Through(mem, e, v[1..]);
      } else {
        assert (p + v)[|p|] == v[0] && (p + [i])[|p|] == i;
        assert !IsPrefix(p + [i], p + v);
        Swap(now, later, p, copy, p, i, p, v);
      }
    }
  }

  lemma CopyBeside(mem: Memory, p: Path, copy: Tables, i: nat, e: Entry)
    requires Tree(mem, p, copy) && p in copy && i < ENTRIES
    ensures Linked(mem, copy, p) && Beside(mem, Put(mem, copy[p], i, e), copy, p, i) && |p| <= 3
  {
    assert Linked(mem, copy, p);
    var now := Put(mem, copy[p], i, e);
    forall q | q in copy
      ensures copy[q] in mem && copy[q] in now && |now[copy[q]]| == |mem[copy[q]]| == ENTRIES
      ensures forall j :: 0 <= j < ENTRIES && !(q == p && j == i) ==> now[copy[q]][j] == mem[copy[q]][j]
    {
      assert Linked(mem, copy, q);
    }
  }

  /** Copying an entry that leads to a table, whose copy is already there. */
  lemma ChildStep(mem: Memory, mid: Memory, now: Memory, tables: Tables, p: Path, copy: Tables, z: nat, i: nat, c: nat,
                  child: Tables)
    requires Tree(mem, [], tables) && p in tables && |p| < 3 && i < ENTRIES && Kept(mem, mid) && Kept(mid, now)
    requires Words(now)
    requires tables[p] in mem && |mem[tables[p]]| == ENTRIES && IsTable(mem[tables[p]][i])
    requires Tree(mid, p, copy) && p in copy && copy[p] == z && z !in mem
    requires z in mid && |mid[z]| == ENTRIES && mid[z][i] == Zero()
    requires Copied(mem, tables[p], mid, z, 4 - |p|, i)
    requires Tree(now, p + [i], child) && p + [i] in child && child[p + [i]] == c && c < FRAMES
    requires child.Values !! mid.Keys && 
      copy.Values <= mid.Keys
    requires Copied(mid, mem[tables[p]][i].frame, now, c, 3 - |p|, ENTRIES)
    ensures z in now && |now[z]| == ENTRIES && copy.Keys !! child.Keys
    ensures var later := Put(now, z, i, mem[tables[p]][i].(frame := c));
      && Tree(later, p, copy + child) && Copied(mem, tables[p], later, z, 4 - |p|, i + 1)
      && Kept(mem, later) && Words(later)
  {
    hide Tree, Copied;
    var e := mem[tables[p]][i].(frame := c);
    var later := Put(now, z, i, e);
    forall q | q in copy
      ensures copy[q] in now && copy[q] in mid && now[copy[q]] == mid[copy[q]]
    {
      assert copy[q] in copy.Values;
    }
    TreeAgree(mid, now, p, copy);
    CopyBeside(now, p, copy, i, e);
    ChildUntouched(now, later, p + [i], child, z);
    Graft(now, later, p, copy, i, child);
    ChildCopied(mem, mid, now, later, tables, p, copy, z, i, c, child);
    assert Word(e) by { assert Word(now[tables[p]][i]); }
  }

  lemma ChildUntouched(now: Memory, later: Memory, base: Path, child: Tables, z: nat)
    requires Tree(now, base, child) && z !in child.Values
    requires forall t :: t in now && t != z ==> t in later && later[t] == now[t]
    ensures forall q :: q in child ==> child[q] in now && child[q] in later && later[child[q]] == now[child[q]]
  {
    forall q | q in child ensures child[q] in now && child[q] in later && later[child[q]] == now[child[q]] {
      assert Linked(now, child, q) && child[q] in child.Values;
    }
  }

  lemma ChildCopied(mem: Memory, mid: Memory, now: Memory, later: Memory, tables: Tables, p: Path, copy: Tables, z: nat,
                    i: nat, c: nat, child: Tables)
    requires Tree(mem, [], tables) && p in tables && |p| < 3 && i < ENTRIES && Kept(mem, mid)
    requires tables[p] in mem && |mem[tables[p]]| == ENTRIES && IsTable(mem[tables[p]][i])
    requires Tree(mid, p, copy) && Tree(now, p, copy) && p in copy && copy[p] == z && z in now && |now[z]| == ENTRIES
    requires forall q :: q in copy ==> copy[q] in now && copy[q] in mid && now[copy[q]] == mid[copy[q]]
    requires later == Put(now, z, i, mem[tables[p]][i].(frame := c)) && Beside(now, later, copy, p, i)
    requires Copied(mem, tables[p], mid, z, 4 - |p|, i)
    requires Tree(now, p + [i], child) && p + [i] in child && child[p + [i]] == c
    requires forall q :: q in child ==> child[q] in now && child[q] in later && later[child[q]] == now[child[q]]
    requires Copied(mid, mem[tables[p]][i].frame, now, c, 3 - |p|, ENTRIES)
    ensures Copied(mem, tables[p], later, z, 4 - |p|, i + 1)
  {
    hide Tree;
    SourceTree(mem, mid, tables, p, i);
    forall q | q in tables ensures tables[q] in mem && tables[q] in mid && mid[tables[q]] == mem[tables[q]] {
      OldTable(mem, mid, tables, q);
    }
    forall v | |v| == 4 - |p| && Indices(v) && |v| > 0 && v[0] < i + 1
      ensures Walk(later, z, v) == Walk(mem, tables[p], v)
    {
      if v[0] == i {
        Agree(now, later, p + [i], child, p + [i], v[1..]);
        Agree(mem, mid, [], tables, p + [i], v[1..]);
      } else {
        assert (p + v)[|p|] == v[0] && (p + [i])[|p|] == i;
        assert !IsPrefix(p + [i], p + v);
        Swap(now, later, p, copy, p, i, p, v);
        Agree(mid, now, p, copy, p, v);
      }
    }
  }

  /** Old tables keep their contents. */
  ghost predicate Kept(mem: Memory, now: Memory) {
    forall t :: t in mem ==> t in now && now[t] == mem[t]
  }

  /** A table whose first entries agree with another on being large pages, and
      whose other entries are still zero. */
  ghost predicate Filling(a: seq<Entry>, b: seq<Entry>, n: nat) {
    && |a| == |b| == ENTRIES && n <= ENTRIES
    && (forall i :: 0 <= i < n ==> a[i].huge == b[i].huge)
    && (forall i :: n <= i < ENTRIES ==> b[i] == Zero())
  }

  lemma FillNext(a: seq<Entry>, b: seq<Entry>, n: nat, e: Entry)
    requires Filling(a, b, n) && n < ENTRIES && e.huge == a[n].huge
    ensures Filling(a, b[n := e], n + 1)
  {
  }

  lemma FillAt(a: seq<Entry>, b: seq<Entry>, n: nat)
    requires Filling(a, b, n)
    ensures |b| == ENTRIES && (n < ENTRIES ==> b[n] == Zero())
  {
  }

  /** Pages below the first entries of a table translate as below another one. */
  ghost predicate Copied(mem: Memory, t: nat, now: Memory, z: nat, level: nat, n: nat) {
    forall v :: |v| == level && Indices(v) && level > 0 && v[0] < n ==> Walk(now, z, v) == Walk(mem, t, v)
  }

  lemma WholeTree(mem: Memory, held: set<nat>, root: nat, tables: Tables)
    requires Rooted(mem, held, root, tables)
    ensures Under(tables, []) == tables.Values && tables.Values <= held && [] in tables && tables[[]] == root
  {
    forall q | q in tables ensures IsPrefix([], q) && tables[q] in held { assert Linked(mem, tables, q); }
  }

  lemma CloneStart(mem: Memory, now: Memory, tables: Tables, p: Path, z: nat)
    requires Tree(mem, [], tables) && p in tables && Words(mem)
    requires z == 0 ==> now == mem
    requires z != 0 ==> z !in mem && now == mem[z := ZeroTable()]
    ensures Linked(mem, tables, p) && Kept(mem, now) && Words(now)
    ensures z != 0 ==>
      Tree(now, p, map[p := z]) && Copied(mem, tables[p], now, z, 4 - |p|, 0) && Filling(mem[tables[p]], now[z], 0)
  {
    assert Linked(mem, tables, p);
    Depth([], tables, p);
    if z != 0 {
      var one := map[p := z];
      forall q | q in one ensures Linked(now, one, q) {
        forall i | 0 <= i < ENTRIES ensures Link(now, one, q, i) { assert |q + [i]| == |q| + 1; }
      }
      assert Place(p, one, p);
    }
  }

  lemma Ancestors(mem: Memory, held: set<nat>, root: nat, tables: Tables, a: nat, b: nat, c: nat)
    requires Rooted(mem, held, root, tables)
    ensures [a, b, c] in tables ==> [a, b] in tables
    ensures [a, b] in tables ==> [a] in tables
  {
    if [a, b, c] in tables { Prefixes([], tables, [a, b, c], 2); assert [a, b, c][..2] == [a, b]; }
    if [a, b] in tables { Prefixes([], tables, [a, b], 1); assert [a, b][..1] == [a]; }
  }

  lemma SameGrown(held: set<nat>, tables: Tables)
    ensures Grown(held, held, tables, tables)
  {
  }

  lemma Join(mem: Memory, mid: Memory, late: Memory, now: Memory, root: nat, p: Path, w: Path)
    requires IsPage(w) && IsPrefix(p, w)
    requires SamePages(mem, mid, root) && SameOutside(mid, late, root, p) && SameOutside(late, now, root, w)
    ensures SameOutside(mem, now, root, p)
    ensures SamePages(mid, late, root) ==> SameOutside(mem, now, root, w)
    ensures AllMoved(mid, late, root, p) && |p| == 3 ==> !SameOutside(mem, now, root, w)
  {
    hide Walk;
    if AllMoved(mid, late, root, p) && |p| == 3 {
      var v := p + [if w[3] == 0 then 1 else 0];
      assert v[..3] == p && IsPage(v) && v[..4] == v && w[..4] == w && v[3] != w[3];
      assert Walk(now, root, v) == Walk(late, root, v) != Walk(mid, root, v) == Walk(mem, root, v);
    }
    forall v | IsPage(v) && !IsPrefix(p, v) ensures Walk(now, root, v) == Walk(mem, root, v) {
      assert v[..|w|] == v;
      assert !IsPrefix(w, v);
    }
  }

  lemma Outside(mem: Memory, now: Memory, root: nat, p: Path)
    requires SamePages(mem, now, root)
    ensures SameOutside(mem, now, root, p)
  {
  }

  lemma Refl(mem: Memory, root: nat, tables: Tables)
    ensures SamePages(mem, mem, root) && SameElsewhere(mem, mem, tables) && SameLarge(mem, mem, root)
  {
  }

  lemma KeysHeld(mem: Memory, held: set<nat>, root: nat, tables: Tables)
    requires Rooted(mem, held, root, tables)
    ensures mem.Keys <= held
  {
  }

  /** Frames are only taken, and the tree only gains frames nobody held. */
  ghost predicate Grown(held: set<nat>, now: set<nat>, tables: Tables, more: Tables) {
    held <= now && tables.Values <= more.Values && more.Values - tables.Values !! held
  }

  lemma Grows(held: set<nat>, tables: Tables, q: Path, z: nat)
    requires q !in tables && z !in held
    ensures Grown(held, held + {z}, tables, tables[q := z])
  {
    MoreValues(tables, q, z);
  }

  lemma LargeAt(mem: Memory, now: Memory, root: nat, w: Path)
    requires SameLarge(mem, now, root) && IsPage(w)
    ensures Directory(now, root, w).Some? && Directory(now, root, w).value.huge ==>
      Directory(mem, root, w) == Directory(now, root, w)
    ensures Directory(mem, root, w).Some? && Directory(mem, root, w).value.huge ==>
      Directory(mem, root, w) == Directory(now, root, w)
    ensures Gigantic(now, root, w) <==> Gigantic(mem, root, w)
  {
  }

  lemma Chain(mem: Memory, mid: Memory, now: Memory, h0: set<nat>, h1: set<nat>, h2: set<nat>, root: nat, t0: Tables,
              t1: Tables, t2: Tables)
    requires mem.Keys <= h0 && Grown(h0, h1, t0, t1) && Grown(h1, h2, t1, t2)
    requires SameElsewhere(mem, mid, t0) && SameElsewhere(mid, now, t1)
    ensures Grown(h0, h2, t0, t2) && SameElsewhere(mem, now, t0)
    ensures SamePages(mem, mid, root) && SamePages(mid, now, root) ==> SamePages(mem, now, root)
    ensures SameLarge(mem, mid, root) && SameLarge(mid, now, root) ==> SameLarge(mem, now, root)
  {
    hide Walk, Directory, Gigantic;
  }

  lemma MoreValues(tables: Tables, q: Path, z: nat)
    requires q !in tables
    ensures tables[q := z].Values == tables.Values + {z}
  {
    var more := tables[q := z];
    assert q in more && more[q] == z;
    forall v | v in tables.Values ensures v in more.Values {
      var k :| k in tables && tables[k] == v;
      assert k in more && more[k] == v;
    }
  }
}
